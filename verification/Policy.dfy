/** The retention evaluator: grouping, ordering, and the protections that decide each artifact. */
module Policy {
  import opened Artifacts
  import opened Orders

  datatype Reason =
    | Recent | Latest | Minimum | ProtectedTag | ProtectedDigest | SharedDigest
    | Unparsed | Referrer | TooYoung | Old | NotSelected

  datatype Rule = Rule(
    keepNewerThan: int,
    deleteOlderThan: int,
    keepLatest: int,
    keepAtLeast: int,
    groupByApp: bool,
    protectedTags: seq<string>,
    protectedPatterns: seq<string -> bool>,
    protectedDigests: set<string>,
    protectUnparsed: bool,
    requireTagged: bool,
    maxDeleteCount: int,
    maxDeletePercent: real)

  datatype Decision = Decision(artifact: Artifact, delete: bool, reasons: seq<Reason>, group: string)

  const DEFAULT_GROUP := "_default"

  function AppGroup(app: string): string { if app == "" then DEFAULT_GROUP else app }

  function GroupOf(a: Artifact, byApp: bool): string {
    if |a.versions| > 0 && byApp then AppGroup(a.versions[0].app) else DEFAULT_GROUP
  }

  /** The comparison each group is sorted with. */
  predicate Newer(a: Artifact, b: Artifact) {
    if |a.versions| > 0 && |b.versions| > 0 then
      var av, bv := a.versions[0], b.versions[0];
      if av.date != bv.date then av.date > bv.date
      else if av.sequence != bv.sequence then av.sequence > bv.sequence
      else if av.tag != bv.tag then Less(bv.tag, av.tag)
      else Less(b.id, a.id)
    else Less(b.id, a.id)
  }

  function Age(a: Artifact, now: int): int {
    if |a.versions| > 0 then Sub(now, a.versions[0].date)
    else if a.updatedAt != ZERO_TIME then Sub(now, a.updatedAt)
    else Sub(now, a.createdAt)
  }

  ghost predicate MultipleApps(versions: seq<Version>) {
    exists i, j :: 0 <= i < j < |versions| && AppGroup(versions[i].app) != AppGroup(versions[j].app)
  }

  predicate TagMatches(tag: string, rule: Rule) {
    tag in rule.protectedTags || exists i :: 0 <= i < |rule.protectedPatterns| && rule.protectedPatterns[i](tag)
  }

  predicate TagProtected(tags: seq<string>, rule: Rule) {
    exists i :: 0 <= i < |tags| && TagMatches(tags[i], rule)
  }

  // What a decision says, declaratively.

  /** Whether a protection applies to an artifact that comes `rank`-th in its group. */
  ghost predicate Applies(reason: Reason, a: Artifact, rule: Rule, now: int, rank: nat) {
    match reason
    case Unparsed => (|a.tags| == 0 && rule.requireTagged) || (|a.versions| == 0 && rule.protectUnparsed)
    case ProtectedTag => TagProtected(a.tags, rule)
    case ProtectedDigest => a.digest in rule.protectedDigests && a.digest != ""
    case Referrer => |a.referrers| > 0
    case SharedDigest => MultipleApps(a.versions)
    case Recent => rule.keepNewerThan > 0 && Age(a, now) < rule.keepNewerThan
    case Latest => rank < rule.keepLatest
    case Minimum => rank < rule.keepAtLeast
    case TooYoung => rule.deleteOlderThan > 0 && Age(a, now) < rule.deleteOlderThan
    case Old => false
    case NotSelected => false
  }

  function Add(reasons: seq<Reason>, condition: bool, reason: Reason): seq<Reason> {
    if condition then reasons + [reason] else reasons
  }

  /** The protections that do not depend on time or rank, in the order they are recorded. */
  ghost function Standing(a: Artifact, rule: Rule): seq<Reason> {
    var r := Add([], |a.tags| == 0 && rule.requireTagged, Unparsed);
    var r := Add(r, |a.versions| == 0 && rule.protectUnparsed, Unparsed);
    var r := Add(r, TagProtected(a.tags, rule), ProtectedTag);
    var r := Add(r, a.digest in rule.protectedDigests && a.digest != "", ProtectedDigest);
    var r := Add(r, |a.referrers| > 0, Referrer);
    Add(r, MultipleApps(a.versions), SharedDigest)
  }

  /** All protections of an artifact, in the order they are recorded. */
  ghost function Protections(a: Artifact, rule: Rule, now: int, rank: nat): seq<Reason> {
    var r := Standing(a, rule);
    var r := Add(r, Applies(Recent, a, rule, now, rank), Recent);
    var r := Add(r, Applies(Latest, a, rule, now, rank), Latest);
    var r := Add(r, Applies(Minimum, a, rule, now, rank), Minimum);
    Add(r, Applies(TooYoung, a, rule, now, rank), TooYoung)
  }

  ghost predicate Deletes(a: Artifact, rule: Rule, now: int, rank: nat) {
    Protections(a, rule, now, rank) == [] && rule.deleteOlderThan > 0
  }

  ghost function Decide(a: Artifact, rule: Rule, now: int, rank: nat): Decision {
    var protections := Protections(a, rule, now, rank);
    Decision(a, Deletes(a, rule, now, rank),
             if protections != [] then protections
             else if rule.deleteOlderThan > 0 then [Old] else [NotSelected],
             GroupOf(a, rule.groupByApp))
  }

  /** An artifact is deleted exactly when deletion is configured and no protection applies to it. */
  lemma DeletesIff(a: Artifact, rule: Rule, now: int, rank: nat)
    ensures Deletes(a, rule, now, rank)
            <==> rule.deleteOlderThan > 0 && forall r :: !Applies(r, a, rule, now, rank)
    ensures Deletes(a, rule, now, rank) ==> Age(a, now) >= rule.deleteOlderThan
  {
    var p := Protections(a, rule, now, rank);
    if p != [] {
      assert p[0] in p;
      ProtectionsApply(a, rule, now, rank);
      assert Applies(p[0], a, rule, now, rank);
    } else {
      ProtectionsApply(a, rule, now, rank);
      assert forall r :: r !in p;
      assert !Applies(TooYoung, a, rule, now, rank);
    }
  }

  /** The recorded protections are exactly those that apply. */
  lemma ProtectionsApply(a: Artifact, rule: Rule, now: int, rank: nat)
    ensures forall r :: r in Protections(a, rule, now, rank) <==> Applies(r, a, rule, now, rank)
  {
    forall r ensures r in Protections(a, rule, now, rank) <==> Applies(r, a, rule, now, rank) {
      StandingApply(a, rule, now, rank, r);
    }
  }

  lemma StandingApply(a: Artifact, rule: Rule, now: int, rank: nat, r: Reason)
    ensures r in Standing(a, rule)
            <==> r in {Unparsed, ProtectedTag, ProtectedDigest, Referrer, SharedDigest}
                 && Applies(r, a, rule, now, rank)
  {
  }

  // Groups and their order.

  /** The indices of one group, ascending, among the first `n` artifacts. */
  function Members(arts: seq<Artifact>, byApp: bool, g: string, n: nat): seq<nat>
    requires n <= |arts|
  {
    if n == 0 then []
    else
      var init := Members(arts, byApp, g, n - 1);
      if GroupOf(arts[n - 1], byApp) == g then init + [n - 1] else init
  }

  ghost predicate AscendingBelow(idx: seq<nat>, n: nat) {
    && (forall p :: 0 <= p < |idx| ==> idx[p] < n)
    && (forall p, q :: 0 <= p < q < |idx| ==> idx[p] < idx[q])
  }

  lemma {:induction false} MembersAscend(arts: seq<Artifact>, byApp: bool, g: string, n: nat)
    requires n <= |arts|
    ensures AscendingBelow(Members(arts, byApp, g, n), n)
  {
    if n > 0 {
      MembersAscend(arts, byApp, g, n - 1);
      var init := Members(arts, byApp, g, n - 1);
      assert AscendingBelow(init, n - 1);
      assert AscendingBelow(init + [n - 1], n);
    }
  }

  lemma {:induction false} MemberIff(arts: seq<Artifact>, byApp: bool, g: string, n: nat, k: nat)
    requires n <= |arts|
    ensures k in Members(arts, byApp, g, n) <==> k < n && GroupOf(arts[k], byApp) == g
  {
    if n > 0 {
      MemberIff(arts, byApp, g, n - 1, k);
    }
  }

  /** The members of a group are its indices, in ascending order. */
  lemma MembersAreTheGroup(arts: seq<Artifact>, byApp: bool, g: string, n: nat)
    requires n <= |arts|
    ensures AscendingBelow(Members(arts, byApp, g, n), n)
    ensures forall k :: k in Members(arts, byApp, g, n) <==> 0 <= k < n && GroupOf(arts[k], byApp) == g
  {
    MembersAscend(arts, byApp, g, n);
    forall k: nat ensures k in Members(arts, byApp, g, n) <==> k < n && GroupOf(arts[k], byApp) == g {
      MemberIff(arts, byApp, g, n, k);
    }
  }

  ghost predicate IndicesOf(arts: seq<Artifact>, idx: seq<nat>) { AscendingBelow(idx, |arts|) }

  /** The comparison ranks these artifacts consistently: it is a strict weak order on them. */
  ghost predicate Coherent(arts: seq<Artifact>, idx: seq<nat>)
    requires forall k :: 0 <= k < |idx| ==> idx[k] < |arts|
  {
    forall x, y, z :: x in idx && y in idx && z in idx && Newer(arts[x], arts[z])
                      ==> Newer(arts[x], arts[y]) || Newer(arts[y], arts[z])
  }

  /** Sorted and stable: newer first, and ties in their original order. */
  ghost predicate Before(arts: seq<Artifact>, i: nat, j: nat) {
    && i < |arts| && j < |arts|
    && (Newer(arts[i], arts[j]) || (!Newer(arts[j], arts[i]) && i < j))
  }

  ghost function Order(arts: seq<Artifact>): (nat, nat) -> bool {
    (i: nat, j: nat) => Before(arts, i, j)
  }

  /** `sort.SliceStable` with the comparison `Newer`, as a function of the artifacts and the index slice. */
  type Sorter = (seq<Artifact>, seq<nat>) -> seq<nat>

  /** What `sort.SliceStable` promises: a permutation, sorted and stable when the comparison is consistent. */
  ghost predicate StableSorter(sort: Sorter) {
    forall arts, idx {:trigger sort(arts, idx)} :: IndicesOf(arts, idx) ==>
      && Permutation<nat>(sort(arts, idx), idx)
      && (Coherent(arts, idx) ==> Ordered(Order(arts), sort(arts, idx)))
  }

  /** The sorted indices of one group. */
  function GroupOrder(sort: Sorter, arts: seq<Artifact>, byApp: bool, g: string): seq<nat> {
    sort(arts, Members(arts, byApp, g, |arts|))
  }

  lemma GroupOrderIsPermutation(sort: Sorter, arts: seq<Artifact>, byApp: bool, g: string)
    requires StableSorter(sort)
    ensures var out := GroupOrder(sort, arts, byApp, g);
            && Distinct(out) && |out| == |Members(arts, byApp, g, |arts|)|
            && forall k :: k in out <==> 0 <= k < |arts| && GroupOf(arts[k], byApp) == g
  {
    var idx := Members(arts, byApp, g, |arts|);
    MembersAreTheGroup(arts, byApp, g, |arts|);
    assert IndicesOf(arts, idx);
    DistinctFromMultiset<nat>(sort(arts, idx), idx);
  }

  ghost function Rank(sort: Sorter, arts: seq<Artifact>, byApp: bool, i: nat): nat
    requires StableSorter(sort) && i < |arts|
  {
    GroupOrderIsPermutation(sort, arts, byApp, GroupOf(arts[i], byApp));
    Position(GroupOrder(sort, arts, byApp, GroupOf(arts[i], byApp)), i)
  }

  /** The decisions of one evaluation, in listing order. */
  ghost function Decisions(sort: Sorter, arts: seq<Artifact>, rule: Rule, now: int): (ds: seq<Decision>)
    requires StableSorter(sort)
    ensures |ds| == |arts|
    ensures forall i :: 0 <= i < |arts| ==> ds[i] == Decide(arts[i], rule, now, Rank(sort, arts, rule.groupByApp, i))
  {
    seq(|arts|, i requires 0 <= i < |arts| => Decide(arts[i], rule, now, Rank(sort, arts, rule.groupByApp, i)))
  }

  // The evaluator itself.

  ghost function AppNames(versions: seq<Version>): set<string> {
    set i | 0 <= i < |versions| :: AppGroup(versions[i].app)
  }

  lemma SeveralNames(versions: seq<Version>)
    ensures |AppNames(versions)| > 1 <==> MultipleApps(versions)
  {
    var apps := AppNames(versions);
    if MultipleApps(versions) {
      var i, j :| 0 <= i < j < |versions| && AppGroup(versions[i].app) != AppGroup(versions[j].app);
      var x, y := AppGroup(versions[i].app), AppGroup(versions[j].app);
      assert {x, y} <= apps;
      assert |apps - {x, y}| == |apps| - |{x, y}|;
    } else if |versions| > 0 {
      var x := AppGroup(versions[0].app);
      assert forall i :: 0 < i < |versions| ==> AppGroup(versions[i].app) == x;
      assert apps == {x};
    } else {
      assert apps == {};
    }
  }

  method HasMultipleApps(versions: seq<Version>) returns (multiple: bool)
    ensures multiple <==> MultipleApps(versions)
  {
    var apps: set<string> := {};
    for n := 0 to |versions|
      invariant apps == AppNames(versions[..n])
    {
      apps := apps + {AppGroup(versions[n].app)};
      assert versions[..n + 1] == versions[..n] + [versions[n]];
      assert AppNames(versions[..n + 1]) == AppNames(versions[..n]) + {AppGroup(versions[n].app)} by {
        forall x | x in AppNames(versions[..n]) ensures x in AppNames(versions[..n + 1]) {
          var i :| 0 <= i < n && AppGroup(versions[..n][i].app) == x;
          assert versions[..n + 1][i] == versions[i];
        }
        assert versions[..n + 1][n] == versions[n];
      }
    }
    assert versions[..|versions|] == versions;
    multiple := |apps| > 1;
    SeveralNames(versions);
  }

  /** Record a protection when its condition holds. */
  method Note(reasons: seq<Reason>, protected: bool, condition: bool, reason: Reason)
    returns (reasons': seq<Reason>, protected': bool)
    requires protected <==> reasons != []
    ensures reasons' == Add(reasons, condition, reason)
    ensures protected' <==> reasons' != []
  {
    reasons', protected' := reasons, protected;
    if condition {
      reasons', protected' := reasons' + [reason], true;
    }
  }

  method JudgeArtifact(d: Decision, rule: Rule, now: int, rank: nat) returns (r: Decision)
    requires d.reasons == [] && !d.delete && d.group == GroupOf(d.artifact, rule.groupByApp)
    ensures r == Decide(d.artifact, rule, now, rank)
  {
    var a := d.artifact;
    var deleted := false;
    var reasons, protected := StandingProtections(a, rule);
    var age := Age(a, now);
    reasons, protected := Note(reasons, protected, rule.keepNewerThan > 0 && age < rule.keepNewerThan, Recent);
    reasons, protected := Note(reasons, protected, rank < rule.keepLatest, Latest);
    reasons, protected := Note(reasons, protected, rank < rule.keepAtLeast, Minimum);
    reasons, protected := Note(reasons, protected, rule.deleteOlderThan > 0 && age < rule.deleteOlderThan, TooYoung);
    if !protected && rule.deleteOlderThan > 0 && age >= rule.deleteOlderThan {
      deleted, reasons := true, reasons + [Old];
    } else if !protected {
      reasons := reasons + [NotSelected];
    }
    r := Decision(a, deleted, reasons, d.group);
  }

  method StandingProtections(a: Artifact, rule: Rule) returns (reasons: seq<Reason>, protected: bool)
    ensures reasons == Standing(a, rule)
    ensures protected <==> reasons != []
  {
    reasons, protected := Note([], false, |a.tags| == 0 && rule.requireTagged, Unparsed);
    reasons, protected := Note(reasons, protected, |a.versions| == 0 && rule.protectUnparsed, Unparsed);
    reasons, protected := Note(reasons, protected, TagProtected(a.tags, rule), ProtectedTag);
    var listed := a.digest in rule.protectedDigests && a.digest != "";
    reasons, protected := Note(reasons, protected, listed, ProtectedDigest);
    reasons, protected := Note(reasons, protected, |a.referrers| > 0, Referrer);
    var multiple := HasMultipleApps(a.versions);
    reasons, protected := Note(reasons, protected, multiple, SharedDigest);
  }

  /** The indices recorded for a group so far. */
  function Indices(groups: map<string, seq<nat>>, g: string): seq<nat> { if g in groups then groups[g] else [] }

  /** Undecided decisions, and the indices of every group. */
  method GroupArtifacts(artifacts: seq<Artifact>, byApp: bool)
    returns (decisions: seq<Decision>, groups: map<string, seq<nat>>)
    ensures |decisions| == |artifacts|
    ensures forall k :: 0 <= k < |artifacts| ==>
              decisions[k] == Decision(artifacts[k], false, [], GroupOf(artifacts[k], byApp))
    ensures forall k :: 0 <= k < |artifacts| ==> GroupOf(artifacts[k], byApp) in groups
    ensures forall g :: g in groups ==> groups[g] == Members(artifacts, byApp, g, |artifacts|)
  {
    decisions, groups := [], map[];
    for i := 0 to |artifacts|
      invariant |decisions| == i
      invariant forall k :: 0 <= k < i ==>
                  decisions[k] == Decision(artifacts[k], false, [], GroupOf(artifacts[k], byApp))
      invariant forall k :: 0 <= k < i ==> GroupOf(artifacts[k], byApp) in groups
      invariant forall g :: Indices(groups, g) == Members(artifacts, byApp, g, i)
    {
      var group := GroupOf(artifacts[i], byApp);
      ghost var before := groups;
      decisions := decisions + [Decision(artifacts[i], false, [], group)];
      groups := groups[group := Indices(groups, group) + [i]];
      forall g ensures Indices(groups, g) == Members(artifacts, byApp, g, i + 1) {
        assert Indices(before, g) == Members(artifacts, byApp, g, i);
      }
    }
    assert forall g :: g in groups ==> Indices(groups, g) == groups[g];
  }

  /** Evaluate a listing. The groups are visited in an arbitrary order, as the source's map iteration does. */
  method Evaluate(sort: Sorter, artifacts: seq<Artifact>, rule: Rule, now: int) returns (decisions: seq<Decision>)
    requires StableSorter(sort)
    ensures decisions == Decisions(sort, artifacts, rule, now)
  {
    var groups;
    decisions, groups := GroupArtifacts(artifacts, rule.groupByApp);
    var todo := groups.Keys;
    while todo != {}
      invariant todo <= groups.Keys
      invariant |decisions| == |artifacts|
      invariant forall k :: 0 <= k < |artifacts| ==>
                  decisions[k] == if GroupOf(artifacts[k], rule.groupByApp) in todo
                                  then Decision(artifacts[k], false, [], GroupOf(artifacts[k], rule.groupByApp))
                                  else Decide(artifacts[k], rule, now, Rank(sort, artifacts, rule.groupByApp, k))
      decreases todo
    {
      var g :| g in todo;
      decisions := JudgeGroup(sort, artifacts, rule, now, g, groups[g], decisions);
      todo := todo - {g};
    }
  }

  /** Sort one group and judge its members by rank. */
  method JudgeGroup(sort: Sorter, artifacts: seq<Artifact>, rule: Rule, now: int, g: string,
                    members: seq<nat>, before: seq<Decision>) returns (decisions: seq<Decision>)
    requires StableSorter(sort)
    requires members == Members(artifacts, rule.groupByApp, g, |artifacts|)
    requires |before| == |artifacts|
    requires forall k :: 0 <= k < |artifacts| && GroupOf(artifacts[k], rule.groupByApp) == g ==>
               before[k] == Decision(artifacts[k], false, [], g)
    ensures |decisions| == |artifacts|
    ensures forall k :: 0 <= k < |artifacts| ==>
              decisions[k] == if GroupOf(artifacts[k], rule.groupByApp) == g
                              then Decide(artifacts[k], rule, now, Rank(sort, artifacts, rule.groupByApp, k))
                              else before[k]
  {
    var indices := sort(artifacts, members);
    GroupOrderIsPermutation(sort, artifacts, rule.groupByApp, g);
    assert forall p :: 0 <= p < |indices| ==> indices[p] in indices;
    decisions := JudgeInOrder(artifacts, rule, now, indices, before);
    forall k | 0 <= k < |artifacts|
      ensures decisions[k] == if GroupOf(artifacts[k], rule.groupByApp) == g
                              then Decide(artifacts[k], rule, now, Rank(sort, artifacts, rule.groupByApp, k))
                              else before[k]
    {
      if k in indices {
        var p := Position(indices, k);
        assert decisions[indices[p]] == Decide(artifacts[indices[p]], rule, now, p);
      }
    }
  }

  method JudgeInOrder(artifacts: seq<Artifact>, rule: Rule, now: int, indices: seq<nat>, before: seq<Decision>)
    returns (decisions: seq<Decision>)
    requires |before| == |artifacts| && Distinct(indices)
    requires forall p :: 0 <= p < |indices| ==>
               && indices[p] < |artifacts|
               && before[indices[p]]
                  == Decision(artifacts[indices[p]], false, [], GroupOf(artifacts[indices[p]], rule.groupByApp))
    ensures |decisions| == |artifacts|
    ensures forall p :: 0 <= p < |indices| ==> decisions[indices[p]] == Decide(artifacts[indices[p]], rule, now, p)
    ensures forall k :: 0 <= k < |artifacts| && k !in indices ==> decisions[k] == before[k]
  {
    decisions := before;
    for rank := 0 to |indices|
      invariant |decisions| == |artifacts|
      invariant forall p :: rank <= p < |indices| ==> decisions[indices[p]] == before[indices[p]]
      invariant forall p :: 0 <= p < rank ==> decisions[indices[p]] == Decide(artifacts[indices[p]], rule, now, p)
      invariant forall k :: 0 <= k < |artifacts| && k !in indices ==> decisions[k] == before[k]
    {
      var index := indices[rank];
      assert forall p :: 0 <= p < |indices| && p != rank ==> indices[p] != index;
      var d := JudgeArtifact(decisions[index], rule, now, rank);
      decisions := decisions[index := d];
    }
  }
}
