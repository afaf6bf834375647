/** What the ranks and decisions of an evaluation are in terms of the artifacts themselves: dates, sequences, tags, IDs,
    protections and ages. */
module Ranking {
  import opened Artifacts
  import opened Orders
  import opened Policy
  import opened Retention
  import opened Coherence

  /** The app an artifact is grouped under; none when no tag of it is recognised. */
  function AppOf(a: Artifact): string { if |a.versions| > 0 then a.versions[0].app else "" }

  /** The same app, where none and the default group's name are the same. */
  predicate SameApp(a: string, b: string) { a == b || {a, b} == {"", "_default"} }

  /** Grouping by app puts artifacts together exactly when their newest recognised tags name the same app; otherwise
      all artifacts are one group. */
  lemma SameGroupIff(a: Artifact, b: Artifact, byApp: bool)
    ensures GroupOf(a, byApp) == GroupOf(b, byApp) <==> !byApp || SameApp(AppOf(a), AppOf(b))
    ensures byApp && AppOf(a) != "" ==> GroupOf(a, byApp) == AppOf(a)
    ensures !byApp || AppOf(a) == "" ==> GroupOf(a, byApp) == "_default"
  {
    var x, y := AppOf(a), AppOf(b);
    if {x, y} == {"", "_default"} {
      assert x in {"", "_default"} && y in {"", "_default"};
    }
    if x == "" && y == "_default" { assert {x, y} == {"", "_default"}; }
    if x == "_default" && y == "" { assert {x, y} == {"", "_default"}; }
  }

  ghost predicate Mates(arts: seq<Artifact>, byApp: bool, i: nat, j: nat) {
    i < |arts| && j < |arts| && GroupOf(arts[i], byApp) == GroupOf(arts[j], byApp)
  }

  /** The artifacts grouped with this one have recognised tags, or none of them has. */
  ghost predicate PureGroup(arts: seq<Artifact>, byApp: bool, i: nat)
    requires i < |arts|
  {
    forall j: nat :: Mates(arts, byApp, i, j) ==> (arts[i].versions == [] <==> arts[j].versions == [])
  }

  /** `j` comes before `i`: by later date, then greater sequence, then greater tag, then greater ID, and by position in
      the listing among artifacts equal in all of them; artifacts without recognised tags by ID and position alone. */
  predicate Ahead(arts: seq<Artifact>, j: nat, i: nat)
    requires i < |arts| && j < |arts|
  {
    var a, b := arts[i], arts[j];
    var byId := Less(a.id, b.id) || (a.id == b.id && j < i);
    if a.versions == [] || b.versions == [] then byId
    else
      var v, w := a.versions[0], b.versions[0];
      || w.date > v.date
      || (w.date == v.date && w.sequence > v.sequence)
      || (w.date == v.date && w.sequence == v.sequence && Less(v.tag, w.tag))
      || (w.date == v.date && w.sequence == v.sequence && w.tag == v.tag && byId)
  }

  lemma BeforeIsAhead(arts: seq<Artifact>, j: nat, i: nat)
    requires i < |arts| && j < |arts| && i != j && (arts[i].versions == [] <==> arts[j].versions == [])
    ensures Before(arts, j, i) <==> Ahead(arts, j, i)
  {
    LessTotal(arts[i].id, arts[j].id);
    LessLaws();
    if arts[i].versions != [] {
      LessTotal(arts[i].versions[0].tag, arts[j].versions[0].tag);
    }
  }

  lemma PureGroupIsOrdered(sort: Sorter, arts: seq<Artifact>, byApp: bool, i: nat)
    requires StableSorter(sort) && i < |arts| && PureGroup(arts, byApp, i)
    ensures Ordered(Order(arts), GroupOrder(sort, arts, byApp, GroupOf(arts[i], byApp)))
  {
    var g := GroupOf(arts[i], byApp);
    var idx := Members(arts, byApp, g, |arts|);
    MembersAreTheGroup(arts, byApp, g, |arts|);
    forall x, y, z | x in idx && y in idx && z in idx && Newer(arts[x], arts[z])
      ensures Newer(arts[x], arts[y]) || Newer(arts[y], arts[z])
    {
      assert Mates(arts, byApp, i, x) && Mates(arts, byApp, i, y) && Mates(arts, byApp, i, z);
      if !Newer(arts[x], arts[y]) && !Newer(arts[y], arts[z]) {
        InconsistencyStraddles(arts[x], arts[y], arts[z]);
      }
    }
    assert IndicesOf(arts, idx) && Coherent(arts, idx);
  }

  /** In such a group an artifact ranks higher exactly when it is ahead. */
  lemma RanksFollow(sort: Sorter, arts: seq<Artifact>, byApp: bool, i: nat, j: nat)
    requires StableSorter(sort) && i != j && Mates(arts, byApp, i, j) && PureGroup(arts, byApp, i)
    ensures Rank(sort, arts, byApp, j) < Rank(sort, arts, byApp, i) <==> Ahead(arts, j, i)
  {
    var g := GroupOf(arts[i], byApp);
    var out := GroupOrder(sort, arts, byApp, g);
    GroupOrderIsPermutation(sort, arts, byApp, g);
    PureGroupIsOrdered(sort, arts, byApp, i);
    var p, q := Position(out, i), Position(out, j);
    assert out[p] == i && out[q] == j;
    if q < p {
      assert Order(arts)(out[q], out[p]);
    } else {
      assert p != q && Order(arts)(out[p], out[q]);
      BeforeAsymmetric(arts, i, j);
    }
    BeforeIsAhead(arts, j, i);
  }

  ghost function AllAhead(arts: seq<Artifact>, byApp: bool, i: nat): set<nat>
    requires i < |arts|
  {
    set j: nat | 0 <= j < |arts| && j != i && Mates(arts, byApp, i, j) && Ahead(arts, j, i)
  }

  /** The rank of an artifact is the number of artifacts in its group that are ahead of it. */
  lemma RankIsTheNumberAhead(sort: Sorter, arts: seq<Artifact>, byApp: bool, i: nat)
    requires StableSorter(sort) && i < |arts| && PureGroup(arts, byApp, i)
    ensures Rank(sort, arts, byApp, i) == |AllAhead(arts, byApp, i)|
  {
    var g := GroupOf(arts[i], byApp);
    var out := GroupOrder(sort, arts, byApp, g);
    var rank := Rank(sort, arts, byApp, i);
    GroupOrderIsPermutation(sort, arts, byApp, g);
    forall j ensures j in out[..rank] <==> j in AllAhead(arts, byApp, i) {
      if j in out[..rank] {
        var q :| 0 <= q < rank && out[q] == j;
        RankAtPosition(sort, arts, byApp, g, q);
        RanksFollow(sort, arts, byApp, i, j);
      }
      if j in AllAhead(arts, byApp, i) {
        RanksFollow(sort, arts, byApp, i, j);
        assert out[Rank(sort, arts, byApp, j)] == j;
      }
    }
    DistinctCardinality(out[..rank]);
    assert Elements(out[..rank]) == AllAhead(arts, byApp, i);
  }

  // The decision in terms of the artifact.

  /** No rule protects the artifact by itself: its tags, digest, referrers and apps. */
  ghost predicate Unshielded(a: Artifact, rule: Rule) {
    && (a.tags == [] ==> !rule.requireTagged)
    && (a.versions == [] ==> !rule.protectUnparsed)
    && (forall t :: t in a.tags ==> t !in rule.protectedTags)
    && (forall t, f :: t in a.tags && f in rule.protectedPatterns ==> !f(t))
    && (a.digest != "" ==> a.digest !in rule.protectedDigests)
    && a.referrers == []
    && (forall v, w :: v in a.versions && w in a.versions ==> SameApp(v.app, w.app))
  }

  /** What the age of an artifact is counted from: the date of its newest recognised tag, without one its last update,
      without that its creation. */
  function Dated(a: Artifact): int {
    if a.versions != [] then a.versions[0].date
    else if a.updatedAt == ZERO_TIME then a.createdAt
    else a.updatedAt
  }

  lemma TagShielded(a: Artifact, rule: Rule)
    ensures TagProtected(a.tags, rule)
            <==> exists t :: t in a.tags && (t in rule.protectedTags || exists f :: f in rule.protectedPatterns && f(t))
  {
    if TagProtected(a.tags, rule) {
      var i :| 0 <= i < |a.tags| && TagMatches(a.tags[i], rule);
      if a.tags[i] !in rule.protectedTags {
        var k :| 0 <= k < |rule.protectedPatterns| && rule.protectedPatterns[k](a.tags[i]);
        assert rule.protectedPatterns[k] in rule.protectedPatterns;
      }
      assert a.tags[i] in a.tags;
    }
    if t :| t in a.tags && (t in rule.protectedTags || exists f :: f in rule.protectedPatterns && f(t)) {
      var i :| 0 <= i < |a.tags| && a.tags[i] == t;
      if t !in rule.protectedTags {
        var f :| f in rule.protectedPatterns && f(t);
        var k :| 0 <= k < |rule.protectedPatterns| && rule.protectedPatterns[k] == f;
        assert rule.protectedPatterns[k](t);
      }
      assert TagMatches(a.tags[i], rule);
    }
  }

  lemma SameAppIff(a: string, b: string)
    ensures SameApp(a, b) <==> AppGroup(a) == AppGroup(b)
  {
    if {a, b} == {"", "_default"} { assert a in {"", "_default"} && b in {"", "_default"}; }
    if a == "" && b == "_default" { assert {a, b} == {"", "_default"}; }
    if a == "_default" && b == "" { assert {a, b} == {"", "_default"}; }
  }

  lemma SeveralApps(versions: seq<Version>)
    ensures MultipleApps(versions) <==> exists v, w :: v in versions && w in versions && !SameApp(v.app, w.app)
  {
    if MultipleApps(versions) {
      var i, j :| 0 <= i < j < |versions| && AppGroup(versions[i].app) != AppGroup(versions[j].app);
      SameAppIff(versions[i].app, versions[j].app);
      assert versions[i] in versions && versions[j] in versions;
    }
    if v, w :| v in versions && w in versions && !SameApp(v.app, w.app) {
      var i, j := Position(versions, v), Position(versions, w);
      SameAppIff(v.app, w.app);
      assert i != j;
      if i < j { assert AppGroup(versions[i].app) != AppGroup(versions[j].app); }
      else { assert AppGroup(versions[j].app) != AppGroup(versions[i].app); }
    }
  }

  lemma UnshieldedIff(a: Artifact, rule: Rule, now: int, rank: nat)
    ensures Unshielded(a, rule)
            <==> forall r :: r in {Unparsed, ProtectedTag, ProtectedDigest, Referrer, SharedDigest}
                   ==> !Applies(r, a, rule, now, rank)
  {
    TagShielded(a, rule);
    SeveralApps(a.versions);
    assert Unshielded(a, rule) ==> !TagProtected(a.tags, rule);
    var shields := {Unparsed, ProtectedTag, ProtectedDigest, Referrer, SharedDigest};
    if forall r :: r in shields ==> !Applies(r, a, rule, now, rank) {
      assert !Applies(Unparsed, a, rule, now, rank) && !Applies(ProtectedTag, a, rule, now, rank);
      assert !Applies(ProtectedDigest, a, rule, now, rank) && !Applies(Referrer, a, rule, now, rank);
      assert !Applies(SharedDigest, a, rule, now, rank);
    }
  }

  /** An artifact is deleted exactly when deletion is configured, nothing shields it, it ranks beyond both retention
      counts, and it is at least as old as both age limits. */
  lemma DeletedIff(sort: Sorter, arts: seq<Artifact>, rule: Rule, now: int, i: nat)
    requires StableSorter(sort) && i < |arts|
    ensures var rank, age := Rank(sort, arts, rule.groupByApp, i), Sub(now, Dated(arts[i]));
            Decisions(sort, arts, rule, now)[i].delete
            <==> && rule.deleteOlderThan > 0 && Unshielded(arts[i], rule)
                 && rank >= rule.keepLatest && rank >= rule.keepAtLeast
                 && age >= rule.deleteOlderThan && (rule.keepNewerThan > 0 ==> age >= rule.keepNewerThan)
  {
    var a, rank := arts[i], Rank(sort, arts, rule.groupByApp, i);
    DeletesIff(a, rule, now, rank);
    UnshieldedIff(a, rule, now, rank);
    assert Applies(Recent, a, rule, now, rank) <==> rule.keepNewerThan > 0 && Sub(now, Dated(a)) < rule.keepNewerThan;
    assert Applies(Latest, a, rule, now, rank) <==> rank < rule.keepLatest;
    assert Applies(Minimum, a, rule, now, rank) <==> rank < rule.keepAtLeast;
    assert Applies(TooYoung, a, rule, now, rank)
           <==> rule.deleteOlderThan > 0 && Sub(now, Dated(a)) < rule.deleteOlderThan;
  }

  /** So in a pure group a deleted artifact has at least keep_latest and at least keep_at_least mates ahead of it. */
  lemma DeletedHasMatesAhead(sort: Sorter, arts: seq<Artifact>, rule: Rule, now: int, i: nat)
    requires StableSorter(sort) && i < |arts| && PureGroup(arts, rule.groupByApp, i)
    requires Decisions(sort, arts, rule, now)[i].delete
    ensures |AllAhead(arts, rule.groupByApp, i)| >= rule.keepLatest
    ensures |AllAhead(arts, rule.groupByApp, i)| >= rule.keepAtLeast
  {
    RankIsTheNumberAhead(sort, arts, rule.groupByApp, i);
    DeletedIff(sort, arts, rule, now, i);
  }

  // The reasons.

  /** What each reason on a decision says of the artifact, its age and its rank. */
  ghost predicate Mean(rs: seq<Reason>, a: Artifact, rule: Rule, age: int, rank: nat) {
    && (Unparsed in rs <==> (a.tags == [] && rule.requireTagged) || (a.versions == [] && rule.protectUnparsed))
    && (ProtectedTag in rs
        <==> exists t :: t in a.tags && (t in rule.protectedTags || exists f :: f in rule.protectedPatterns && f(t)))
    && (ProtectedDigest in rs <==> a.digest != "" && a.digest in rule.protectedDigests)
    && (Referrer in rs <==> a.referrers != [])
    && (SharedDigest in rs <==> exists v, w :: v in a.versions && w in a.versions && !SameApp(v.app, w.app))
    && (Recent in rs <==> rule.keepNewerThan > 0 && age < rule.keepNewerThan)
    && (Latest in rs <==> rank < rule.keepLatest)
    && (Minimum in rs <==> rank < rule.keepAtLeast)
    && (TooYoung in rs <==> rule.deleteOlderThan > 0 && age < rule.deleteOlderThan)
    && (NotSelected in rs <==> rs == [NotSelected])
    && (NotSelected in rs ==> rule.deleteOlderThan <= 0)
  }

  lemma ReasonsMean(sort: Sorter, arts: seq<Artifact>, rule: Rule, now: int, i: nat)
    requires StableSorter(sort) && i < |arts|
    ensures Mean(Decisions(sort, arts, rule, now)[i].reasons, arts[i], rule, Sub(now, Dated(arts[i])),
                 Rank(sort, arts, rule.groupByApp, i))
  {
    var rank := Rank(sort, arts, rule.groupByApp, i);
    ReasonsExplain(arts[i], rule, now, rank);
    ExplanationsMean(Decide(arts[i], rule, now, rank).reasons, arts[i], rule, now, rank);
  }

  /** Apart from the two that stand alone, the reasons are those that apply. */
  ghost predicate Explain(rs: seq<Reason>, a: Artifact, rule: Rule, now: int, rank: nat) {
    && (forall r :: r != Old && r != NotSelected ==> (r in rs <==> Applies(r, a, rule, now, rank)))
    && (NotSelected in rs <==> rs == [NotSelected])
    && (NotSelected in rs ==> rule.deleteOlderThan <= 0)
  }

  lemma ReasonsExplain(a: Artifact, rule: Rule, now: int, rank: nat)
    ensures Explain(Decide(a, rule, now, rank).reasons, a, rule, now, rank)
  {
    ProtectionsApply(a, rule, now, rank);
    RecordedExplain(Protections(a, rule, now, rank), Decide(a, rule, now, rank).reasons, a, rule, now, rank);
  }

  lemma RecordedExplain(protections: seq<Reason>, reasons: seq<Reason>, a: Artifact, rule: Rule, now: int, rank: nat)
    requires forall r :: r in protections <==> Applies(r, a, rule, now, rank)
    requires reasons == if protections != [] then protections
                        else if rule.deleteOlderThan > 0 then [Old] else [NotSelected]
    ensures Explain(reasons, a, rule, now, rank)
  {
    assert !Applies(NotSelected, a, rule, now, rank) && !Applies(Old, a, rule, now, rank);
    if protections != [] {
      assert protections[0] in protections;
    } else {
      forall r ensures !Applies(r, a, rule, now, rank) { assert r !in protections; }
    }
  }

  lemma ExplanationsMean(rs: seq<Reason>, a: Artifact, rule: Rule, now: int, rank: nat)
    requires Explain(rs, a, rule, now, rank)
    ensures Mean(rs, a, rule, Sub(now, Dated(a)), rank)
  {
    ShieldsMean(a, rule, now, rank);
    RetentionMeans(a, rule, now, rank);
  }

  lemma ShieldsMean(a: Artifact, rule: Rule, now: int, rank: nat)
    ensures Applies(Unparsed, a, rule, now, rank)
            <==> (a.tags == [] && rule.requireTagged) || (a.versions == [] && rule.protectUnparsed)
    ensures Applies(ProtectedTag, a, rule, now, rank)
            <==> exists t :: t in a.tags
                   && (t in rule.protectedTags || exists f :: f in rule.protectedPatterns && f(t))
    ensures Applies(ProtectedDigest, a, rule, now, rank) <==> a.digest != "" && a.digest in rule.protectedDigests
    ensures Applies(Referrer, a, rule, now, rank) <==> a.referrers != []
    ensures Applies(SharedDigest, a, rule, now, rank)
            <==> exists v, w :: v in a.versions && w in a.versions && !SameApp(v.app, w.app)
  {
    TagShielded(a, rule);
    SeveralApps(a.versions);
  }

  lemma RetentionMeans(a: Artifact, rule: Rule, now: int, rank: nat)
    ensures var age := Sub(now, Dated(a));
            && (Applies(Recent, a, rule, now, rank) <==> rule.keepNewerThan > 0 && age < rule.keepNewerThan)
            && (Applies(Latest, a, rule, now, rank) <==> rank < rule.keepLatest)
            && (Applies(Minimum, a, rule, now, rank) <==> rank < rule.keepAtLeast)
            && (Applies(TooYoung, a, rule, now, rank) <==> rule.deleteOlderThan > 0 && age < rule.deleteOlderThan)
  {
  }

  /** The order in which reasons are recorded. */
  function Turn(r: Reason): nat {
    match r
    case Unparsed => 0
    case ProtectedTag => 1
    case ProtectedDigest => 2
    case Referrer => 3
    case SharedDigest => 4
    case Recent => 5
    case Latest => 6
    case Minimum => 7
    case TooYoung => 8
    case Old => 9
    case NotSelected => 9
  }

  ghost predicate InTurn(rs: seq<Reason>) {
    forall p, q :: 0 <= p < q < |rs| ==>
      Turn(rs[p]) < Turn(rs[q]) || (q == 1 && rs[p] == rs[q] == Unparsed)
  }

  /** Unparsed on both counts. */
  predicate Twice(rs: seq<Reason>) { |rs| > 1 && rs[1] == Unparsed }

  ghost predicate UpTo(rs: seq<Reason>, turn: int) {
    InTurn(rs) && forall p :: 0 <= p < |rs| ==> Turn(rs[p]) <= turn
  }

  lemma AddInTurn(rs: seq<Reason>, condition: bool, r: Reason)
    requires UpTo(rs, Turn(r) - 1) && r != Unparsed
    ensures UpTo(Add(rs, condition, r), Turn(r)) && (Twice(Add(rs, condition, r)) <==> Twice(rs))
  {
  }

  /** Reasons come in turn and only once, except that an artifact may be unparsed for want of any tag and for want of a
      recognised one; a deleted artifact has the single reason that it is old. */
  lemma ReasonsInTurn(sort: Sorter, arts: seq<Artifact>, rule: Rule, now: int, i: nat)
    requires StableSorter(sort) && i < |arts|
    ensures var d := Decisions(sort, arts, rule, now)[i];
            && d.artifact == arts[i] && InTurn(d.reasons) && d.reasons != []
            && (d.delete <==> d.reasons == [Old])
            && (Twice(d.reasons)
                <==> arts[i].tags == [] && rule.requireTagged && arts[i].versions == [] && rule.protectUnparsed)
  {
    DecideInTurn(arts[i], rule, now, Rank(sort, arts, rule.groupByApp, i));
  }

  lemma DecideInTurn(a: Artifact, rule: Rule, now: int, rank: nat)
    ensures var d := Decide(a, rule, now, rank);
            && d.artifact == a && InTurn(d.reasons) && d.reasons != [] && (d.delete <==> d.reasons == [Old])
            && (Twice(d.reasons) <==> a.tags == [] && rule.requireTagged && a.versions == [] && rule.protectUnparsed)
  {
    OldProtectsNothing(a, rule, now, rank);
    ProtectionsInTurn(a, rule, now, rank);
    RecordedInTurn(Protections(a, rule, now, rank), rule.deleteOlderThan > 0, Decide(a, rule, now, rank).reasons);
  }

  lemma OldProtectsNothing(a: Artifact, rule: Rule, now: int, rank: nat)
    ensures Old !in Protections(a, rule, now, rank)
  {
    ProtectionsApply(a, rule, now, rank);
    assert !Applies(Old, a, rule, now, rank);
  }

  lemma RecordedInTurn(protections: seq<Reason>, configured: bool, reasons: seq<Reason>)
    requires UpTo(protections, Turn(TooYoung)) && Old !in protections
    requires reasons == if protections != [] then protections else if configured then [Old] else [NotSelected]
    ensures InTurn(reasons) && reasons != [] && (reasons == [Old] <==> protections == [] && configured)
    ensures Twice(reasons) <==> Twice(protections)
  {
    if reasons == [Old] { assert Old in reasons; }
  }

  lemma StandingInTurn(a: Artifact, rule: Rule)
    ensures UpTo(Standing(a, rule), Turn(SharedDigest))
    ensures Twice(Standing(a, rule)) <==> a.tags == [] && rule.requireTagged && a.versions == [] && rule.protectUnparsed
  {
    var r := Add([], |a.tags| == 0 && rule.requireTagged, Unparsed);
    r := Add(r, |a.versions| == 0 && rule.protectUnparsed, Unparsed);
    StandingFrom(r, TagProtected(a.tags, rule), a.digest in rule.protectedDigests && a.digest != "",
                 |a.referrers| > 0, MultipleApps(a.versions));
  }

  lemma StandingFrom(rs: seq<Reason>, tag: bool, digest: bool, referrer: bool, shared: bool)
    requires UpTo(rs, Turn(Unparsed))
    ensures var all := Add(Add(Add(Add(rs, tag, ProtectedTag), digest, ProtectedDigest), referrer, Referrer),
                           shared, SharedDigest);
            UpTo(all, Turn(SharedDigest)) && (Twice(all) <==> Twice(rs))
  {
    AddInTurn(rs, tag, ProtectedTag);
    var r := Add(rs, tag, ProtectedTag);
    AddInTurn(r, digest, ProtectedDigest);
    r := Add(r, digest, ProtectedDigest);
    AddInTurn(r, referrer, Referrer);
    r := Add(r, referrer, Referrer);
    AddInTurn(r, shared, SharedDigest);
  }

  lemma ProtectionsInTurn(a: Artifact, rule: Rule, now: int, rank: nat)
    ensures UpTo(Protections(a, rule, now, rank), Turn(TooYoung))
    ensures Twice(Protections(a, rule, now, rank))
            <==> a.tags == [] && rule.requireTagged && a.versions == [] && rule.protectUnparsed
  {
    StandingInTurn(a, rule);
    ProtectionsFrom(Standing(a, rule), Applies(Recent, a, rule, now, rank), Applies(Latest, a, rule, now, rank),
                    Applies(Minimum, a, rule, now, rank), Applies(TooYoung, a, rule, now, rank));
  }

  lemma ProtectionsFrom(rs: seq<Reason>, recent: bool, latest: bool, minimum: bool, young: bool)
    requires UpTo(rs, Turn(SharedDigest))
    ensures var all := Add(Add(Add(Add(rs, recent, Recent), latest, Latest), minimum, Minimum), young, TooYoung);
            UpTo(all, Turn(TooYoung)) && (Twice(all) <==> Twice(rs))
  {
    AddInTurn(rs, recent, Recent);
    var r := Add(rs, recent, Recent);
    AddInTurn(r, latest, Latest);
    r := Add(r, latest, Latest);
    AddInTurn(r, minimum, Minimum);
    r := Add(r, minimum, Minimum);
    AddInTurn(r, young, TooYoung);
  }
}
