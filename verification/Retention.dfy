/** What evaluation promises: minimum retention, monotonicity, independence of listing order, and
    stability of the remaining decisions while planned artifacts disappear. */
module Retention {
  import opened Artifacts
  import opened Orders
  import opened Policy

  lemma NewerAsymmetric(a: Artifact, b: Artifact)
    requires Newer(a, b)
    ensures !Newer(b, a)
  {
    if |a.versions| > 0 && |b.versions| > 0 {
      var av, bv := a.versions[0], b.versions[0];
      if av.tag != bv.tag && Less(bv.tag, av.tag) { LessAsymmetric(bv.tag, av.tag); }
    }
    if Less(b.id, a.id) { LessAsymmetric(b.id, a.id); }
  }

  lemma BeforeAsymmetric(arts: seq<Artifact>, i: nat, j: nat)
    requires Before(arts, i, j)
    ensures !Before(arts, j, i)
  {
    if Newer(arts[i], arts[j]) { NewerAsymmetric(arts[i], arts[j]); }
  }

  /** The comparison is consistent within every group of the listing. */
  ghost predicate CoherentListing(arts: seq<Artifact>, byApp: bool) {
    forall x, y, z :: 0 <= x < |arts| && 0 <= y < |arts| && 0 <= z < |arts|
      && GroupOf(arts[x], byApp) == GroupOf(arts[y], byApp) == GroupOf(arts[z], byApp)
      && Newer(arts[x], arts[z])
      ==> Newer(arts[x], arts[y]) || Newer(arts[y], arts[z])
  }

  /** In a coherent listing every group comes out sorted and stable. */
  lemma GroupIsOrdered(sort: Sorter, arts: seq<Artifact>, byApp: bool, g: string)
    requires StableSorter(sort) && CoherentListing(arts, byApp)
    ensures Ordered(Order(arts), GroupOrder(sort, arts, byApp, g))
  {
    var idx := Members(arts, byApp, g, |arts|);
    MembersAreTheGroup(arts, byApp, g, |arts|);
    assert IndicesOf(arts, idx);
    assert Coherent(arts, idx);
  }

  // Removing artifacts from a listing.

  function Without(arts: seq<Artifact>, gone: set<string>): seq<Artifact> {
    if |arts| == 0 then []
    else
      var init := Without(arts[..|arts| - 1], gone);
      var last := arts[|arts| - 1];
      if Key(last) in gone then init else init + [last]
  }

  function Remaining(ds: seq<Decision>, gone: set<string>): seq<Decision> {
    if |ds| == 0 then []
    else
      var init := Remaining(ds[..|ds| - 1], gone);
      var last := ds[|ds| - 1];
      if Key(last.artifact) in gone then init else init + [last]
  }

  /** The original indices of the artifacts that stay. */
  ghost function Survivors(arts: seq<Artifact>, gone: set<string>): seq<nat> {
    if |arts| == 0 then []
    else
      var init := Survivors(arts[..|arts| - 1], gone);
      if Key(arts[|arts| - 1]) in gone then init else init + [|arts| - 1]
  }

  /** `e` lists, in ascending order, the places of `small` in `big`. */
  ghost predicate Embeds(small: seq<Artifact>, big: seq<Artifact>, e: seq<nat>) {
    && |e| == |small|
    && (forall k :: 0 <= k < |e| ==> e[k] < |big| && small[k] == big[e[k]])
    && (forall p, q :: 0 <= p < q < |e| ==> e[p] < e[q])
  }

  lemma {:induction false} SurvivorsEmbed(arts: seq<Artifact>, gone: set<string>)
    ensures Embeds(Without(arts, gone), arts, Survivors(arts, gone))
    ensures forall i :: i in Survivors(arts, gone) <==> 0 <= i < |arts| && Key(arts[i]) !in gone
  {
    if |arts| > 0 {
      SurvivorsEmbed(arts[..|arts| - 1], gone);
    }
  }

  lemma {:induction false} RemainingAt(ds: seq<Decision>, arts: seq<Artifact>, gone: set<string>)
    requires |ds| == |arts| && forall i :: 0 <= i < |ds| ==> ds[i].artifact == arts[i]
    ensures var e := Survivors(arts, gone);
            && |Remaining(ds, gone)| == |e|
            && (forall k :: 0 <= k < |e| ==> e[k] < |ds| && Remaining(ds, gone)[k] == ds[e[k]])
  {
    if |ds| > 0 {
      RemainingAt(ds[..|ds| - 1], arts[..|arts| - 1], gone);
      SurvivorsEmbed(arts[..|arts| - 1], gone);
    }
  }

  ghost function Mapped(e: seq<nat>, s: seq<nat>): seq<nat>
    requires forall p :: 0 <= p < |s| ==> s[p] < |e|
  {
    seq(|s|, p requires 0 <= p < |s| => e[s[p]])
  }

  lemma CoherentWithin(small: seq<Artifact>, big: seq<Artifact>, e: seq<nat>, byApp: bool)
    requires Embeds(small, big, e) && CoherentListing(big, byApp)
    ensures CoherentListing(small, byApp)
  {
    forall x, y, z | 0 <= x < |small| && 0 <= y < |small| && 0 <= z < |small|
      && GroupOf(small[x], byApp) == GroupOf(small[y], byApp) == GroupOf(small[z], byApp)
      && Newer(small[x], small[z])
      ensures Newer(small[x], small[y]) || Newer(small[y], small[z])
    {
      assert small[x] == big[e[x]] && small[y] == big[e[y]] && small[z] == big[e[z]];
    }
  }

  lemma OrderAsymmetric(arts: seq<Artifact>)
    ensures forall i, j :: Order(arts)(i, j) ==> !Order(arts)(j, i)
  {
    forall i, j | Order(arts)(i, j) ensures !Order(arts)(j, i) { BeforeAsymmetric(arts, i, j); }
  }

  /** Filtering commutes with the stable sort: the sorted survivors are the survivors of the sorted group. */
  lemma SortThenRemove(sort: Sorter, small: seq<Artifact>, big: seq<Artifact>, e: seq<nat>, byApp: bool, g: string)
    requires StableSorter(sort) && Embeds(small, big, e) && CoherentListing(big, byApp)
    ensures var out := GroupOrder(sort, small, byApp, g);
            && (forall p :: 0 <= p < |out| ==> out[p] < |e|)
            && Mapped(e, out) == Filter(GroupOrder(sort, big, byApp, g), Elements(e))
  {
    var out, whole, keep := GroupOrder(sort, small, byApp, g), GroupOrder(sort, big, byApp, g), Elements(e);
    MappedElements(sort, small, big, e, byApp, g);
    CoherentWithin(small, big, e, byApp);
    GroupIsOrdered(sort, small, byApp, g);
    GroupIsOrdered(sort, big, byApp, g);
    FilterOrdered(Order(big), whole, keep);
    MappedIsOrdered(small, big, e, out);
    OrderAsymmetric(big);
    OrderedIsUnique(Order(big), Mapped(e, out), Filter(whole, keep));
  }

  lemma MappedElements(sort: Sorter, small: seq<Artifact>, big: seq<Artifact>, e: seq<nat>, byApp: bool, g: string)
    requires StableSorter(sort) && Embeds(small, big, e)
    ensures var out := GroupOrder(sort, small, byApp, g);
            && (forall p :: 0 <= p < |out| ==> out[p] < |e|)
            && forall i :: i in Mapped(e, out) <==> i in Filter(GroupOrder(sort, big, byApp, g), Elements(e))
  {
    var out, whole := GroupOrder(sort, small, byApp, g), GroupOrder(sort, big, byApp, g);
    GroupOrderIsPermutation(sort, small, byApp, g);
    GroupOrderIsPermutation(sort, big, byApp, g);
    assert forall p :: 0 <= p < |out| ==> out[p] in out;
    forall i ensures i in Mapped(e, out) <==> i in whole && i in e {
      if i in Mapped(e, out) {
        var p :| 0 <= p < |out| && Mapped(e, out)[p] == i;
        assert out[p] in out;
      }
      if i in whole && i in e {
        var k :| 0 <= k < |e| && e[k] == i;
        assert k in out;
        var p :| 0 <= p < |out| && out[p] == k;
        assert Mapped(e, out)[p] == i;
      }
    }
  }

  lemma MappedIsOrdered(small: seq<Artifact>, big: seq<Artifact>, e: seq<nat>, out: seq<nat>)
    requires Embeds(small, big, e)
    requires forall p :: 0 <= p < |out| ==> out[p] < |e|
    requires Ordered(Order(small), out)
    ensures Ordered(Order(big), Mapped(e, out))
  {
    forall p, q | 0 <= p < q < |out| ensures Before(big, e[out[p]], e[out[q]]) {
      assert Order(small)(out[p], out[q]);
    }
  }

  function Reserve(rule: Rule): int {
    if rule.keepLatest > rule.keepAtLeast then rule.keepLatest else rule.keepAtLeast
  }

  /** The first `Reserve(rule)` artifacts of every group are never deleted. */
  lemma ReserveIsKept(a: Artifact, rule: Rule, now: int, rank: nat)
    requires rank < Reserve(rule)
    ensures !Deletes(a, rule, now, rank)
  {
    DeletesIff(a, rule, now, rank);
    assert Applies(Latest, a, rule, now, rank) || Applies(Minimum, a, rule, now, rank);
  }

  /** Ranks below the reserve matter one by one; above it they are interchangeable. */
  lemma DecideBeyondReserve(a: Artifact, rule: Rule, now: int, r: nat, s: nat)
    requires r == s || (r >= Reserve(rule) && s >= Reserve(rule))
    ensures Decide(a, rule, now, r) == Decide(a, rule, now, s)
  {
  }

  /** The position of a survivor among the sorted survivors. */
  lemma RankAmongSurvivors(sort: Sorter, small: seq<Artifact>, big: seq<Artifact>, e: seq<nat>, byApp: bool, k: nat)
    requires StableSorter(sort) && Embeds(small, big, e) && CoherentListing(big, byApp) && k < |small|
    ensures var order := Filter(GroupOrder(sort, big, byApp, GroupOf(small[k], byApp)), Elements(e));
            e[k] in order && Rank(sort, small, byApp, k) == Position(order, e[k])
  {
    var g := GroupOf(small[k], byApp);
    var out := GroupOrder(sort, small, byApp, g);
    GroupOrderIsPermutation(sort, small, byApp, g);
    SortThenRemove(sort, small, big, e, byApp, g);
    var mapped := Mapped(e, out);
    assert mapped[Position(out, k)] == e[k];
    assert Distinct(mapped);
    PositionIsUnique(mapped, e[k], Position(out, k));
  }

  lemma RankAtPosition(sort: Sorter, arts: seq<Artifact>, byApp: bool, g: string, p: nat)
    requires StableSorter(sort) && p < |GroupOrder(sort, arts, byApp, g)|
    ensures var i := GroupOrder(sort, arts, byApp, g)[p];
            i < |arts| && GroupOf(arts[i], byApp) == g && Rank(sort, arts, byApp, i) == p
  {
    var out := GroupOrder(sort, arts, byApp, g);
    GroupOrderIsPermutation(sort, arts, byApp, g);
    assert out[p] in out;
    PositionIsUnique(out, out[p], p);
  }

  lemma RankAfterRemoval(sort: Sorter, small: seq<Artifact>, big: seq<Artifact>, e: seq<nat>, byApp: bool,
                         reserve: int, k: nat)
    requires StableSorter(sort) && Embeds(small, big, e) && CoherentListing(big, byApp) && k < |small|
    requires forall i :: 0 <= i < |big| && Rank(sort, big, byApp, i) < reserve ==> i in e
    ensures Rank(sort, small, byApp, k) == Rank(sort, big, byApp, e[k])
            || (Rank(sort, small, byApp, k) >= reserve && Rank(sort, big, byApp, e[k]) >= reserve)
  {
    var g := GroupOf(small[k], byApp);
    var whole, keep := GroupOrder(sort, big, byApp, g), Elements(e);
    GroupOrderIsPermutation(sort, big, byApp, g);
    RankAmongSurvivors(sort, small, big, e, byApp, k);
    forall p | 0 <= p < |whole| && p < reserve ensures whole[p] in keep {
      RankAtPosition(sort, big, byApp, g, p);
    }
    PositionInFilter(whole, keep, reserve, e[k]);
  }

  /** Removing artifacts that were voted for deletion leaves every other decision, reasons included, as it was. */
  lemma DecisionsSurviveRemoval(sort: Sorter, arts: seq<Artifact>, rule: Rule, now: int, gone: set<string>)
    requires StableSorter(sort) && CoherentListing(arts, rule.groupByApp)
    requires forall i :: 0 <= i < |arts| && Key(arts[i]) in gone ==> Decisions(sort, arts, rule, now)[i].delete
    ensures Decisions(sort, Without(arts, gone), rule, now) == Remaining(Decisions(sort, arts, rule, now), gone)
  {
    var small, e, byApp := Without(arts, gone), Survivors(arts, gone), rule.groupByApp;
    var before, after := Decisions(sort, arts, rule, now), Decisions(sort, small, rule, now);
    SurvivorsEmbed(arts, gone);
    RemainingAt(before, arts, gone);
    forall i | 0 <= i < |arts| && Rank(sort, arts, byApp, i) < Reserve(rule) ensures i in e {
      ReserveIsKept(arts[i], rule, now, Rank(sort, arts, byApp, i));
    }
    forall k | 0 <= k < |small| ensures after[k] == before[e[k]] {
      RankAfterRemoval(sort, small, arts, e, byApp, Reserve(rule), k);
      DecideBeyondReserve(small[k], rule, now, Rank(sort, small, byApp, k), Rank(sort, arts, byApp, e[k]));
    }
  }

  // Minimum retention.

  ghost function GroupIndices(arts: seq<Artifact>, byApp: bool, g: string): set<nat> {
    set i: nat | 0 <= i < |arts| && GroupOf(arts[i], byApp) == g
  }

  ghost function KeptIndices(ds: seq<Decision>, arts: seq<Artifact>, byApp: bool, g: string): set<nat>
    requires |ds| == |arts|
  {
    set i: nat | 0 <= i < |arts| && GroupOf(arts[i], byApp) == g && !ds[i].delete
  }

  function Min(a: int, b: int): int { if a < b then a else b }

  lemma SubsetCardinality<T>(a: set<T>, b: set<T>)
    requires a <= b
    ensures |a| <= |b|
  {
    assert |b - a| == |b| - |a|;
  }

  lemma FirstIsKept(sort: Sorter, arts: seq<Artifact>, rule: Rule, now: int, g: string, p: nat)
    requires StableSorter(sort) && p < |GroupOrder(sort, arts, rule.groupByApp, g)| && p < Reserve(rule)
    ensures var i := GroupOrder(sort, arts, rule.groupByApp, g)[p];
            i < |arts| && GroupOf(arts[i], rule.groupByApp) == g && !Decisions(sort, arts, rule, now)[i].delete
  {
    var i := GroupOrder(sort, arts, rule.groupByApp, g)[p];
    RankAtPosition(sort, arts, rule.groupByApp, g, p);
    ReserveIsKept(arts[i], rule, now, p);
  }

  /** A non-empty listing always keeps something when the reserve is positive. */
  lemma SomethingIsKept(sort: Sorter, arts: seq<Artifact>, rule: Rule, now: int) returns (i: nat)
    requires StableSorter(sort) && |arts| > 0 && Reserve(rule) >= 1
    ensures i < |arts| && !Decisions(sort, arts, rule, now)[i].delete
  {
    var g := GroupOf(arts[0], rule.groupByApp);
    var out := GroupOrder(sort, arts, rule.groupByApp, g);
    GroupOrderIsPermutation(sort, arts, rule.groupByApp, g);
    assert 0 in out;
    FirstIsKept(sort, arts, rule, now, g, 0);
    i := out[0];
  }

  /** Every group keeps its reserve, or all of itself when it is smaller, whatever order the sort produced. */
  lemma MinimumIsKept(sort: Sorter, arts: seq<Artifact>, rule: Rule, now: int, g: string)
    requires StableSorter(sort)
    ensures |KeptIndices(Decisions(sort, arts, rule, now), arts, rule.groupByApp, g)|
            >= Min(|GroupIndices(arts, rule.groupByApp, g)|, Reserve(rule))
  {
    var byApp := rule.groupByApp;
    var out := GroupOrder(sort, arts, byApp, g);
    GroupOrderIsPermutation(sort, arts, byApp, g);
    assert GroupIndices(arts, byApp, g) == Elements(out);
    DistinctCardinality(out);
    if Min(|out|, Reserve(rule)) > 0 {
      FirstAreKept(sort, arts, rule, now, g, Min(|out|, Reserve(rule)));
    }
  }

  lemma FirstAreKept(sort: Sorter, arts: seq<Artifact>, rule: Rule, now: int, g: string, m: nat)
    requires StableSorter(sort) && m <= |GroupOrder(sort, arts, rule.groupByApp, g)| && m <= Reserve(rule)
    ensures |KeptIndices(Decisions(sort, arts, rule, now), arts, rule.groupByApp, g)| >= m
  {
    var kept := KeptIndices(Decisions(sort, arts, rule, now), arts, rule.groupByApp, g);
    GroupOrderIsPermutation(sort, arts, rule.groupByApp, g);
    var first := GroupOrder(sort, arts, rule.groupByApp, g)[..m];
    DistinctCardinality(first);
    forall i | i in first ensures i in kept {
      var p :| 0 <= p < m && first[p] == i;
      FirstIsKept(sort, arts, rule, now, g, p);
    }
    SubsetCardinality(Elements(first), kept);
  }

  // Monotonicity.

  /** `strict` protects at least as much as `lax`. */
  ghost predicate Stricter(strict: Rule, lax: Rule) {
    && strict.groupByApp == lax.groupByApp
    && strict.keepLatest >= lax.keepLatest
    && strict.keepAtLeast >= lax.keepAtLeast
    && strict.keepNewerThan >= lax.keepNewerThan
    && strict.deleteOlderThan >= lax.deleteOlderThan > 0
    && (forall t :: t in lax.protectedTags ==> t in strict.protectedTags)
    && (forall i :: 0 <= i < |lax.protectedPatterns| ==> lax.protectedPatterns[i] in strict.protectedPatterns)
    && lax.protectedDigests <= strict.protectedDigests
    && (lax.protectUnparsed ==> strict.protectUnparsed)
    && (lax.requireTagged ==> strict.requireTagged)
  }

  lemma AgeMonotone(a: Artifact, now: int, later: int)
    requires now <= later
    ensures Age(a, now) <= Age(a, later)
  {
  }

  lemma TagProtectionMonotone(tags: seq<string>, strict: Rule, lax: Rule)
    requires Stricter(strict, lax) && TagProtected(tags, lax)
    ensures TagProtected(tags, strict)
  {
    var i :| 0 <= i < |tags| && TagMatches(tags[i], lax);
    if tags[i] !in lax.protectedTags {
      var j :| 0 <= j < |lax.protectedPatterns| && lax.protectedPatterns[j](tags[i]);
      var k :| 0 <= k < |strict.protectedPatterns| && strict.protectedPatterns[k] == lax.protectedPatterns[j];
      assert strict.protectedPatterns[k](tags[i]);
    }
    assert TagMatches(tags[i], strict);
  }

  /** A stricter rule, or an earlier clock, deletes nothing the laxer rule at the later clock keeps. */
  lemma DeletionIsMonotone(sort: Sorter, arts: seq<Artifact>, strict: Rule, lax: Rule, now: int, later: int, i: nat)
    requires StableSorter(sort) && Stricter(strict, lax) && now <= later && i < |arts|
    ensures Decisions(sort, arts, strict, now)[i].delete ==> Decisions(sort, arts, lax, later)[i].delete
  {
    var a, rank := arts[i], Rank(sort, arts, lax.groupByApp, i);
    DeletesIff(a, strict, now, rank);
    DeletesIff(a, lax, later, rank);
    AgeMonotone(a, now, later);
    if Deletes(a, strict, now, rank) {
      forall r ensures !Applies(r, a, lax, later, rank) {
        assert !Applies(r, a, strict, now, rank);
        if r == ProtectedTag && TagProtected(a.tags, lax) { TagProtectionMonotone(a.tags, strict, lax); }
      }
    }
  }

  // Independence of the listing order.

  /** No two artifacts of a group are tied. */
  ghost predicate NoTies(arts: seq<Artifact>, byApp: bool) {
    forall i, j :: 0 <= i < |arts| && 0 <= j < |arts| && i != j && GroupOf(arts[i], byApp) == GroupOf(arts[j], byApp)
      ==> Newer(arts[i], arts[j]) || Newer(arts[j], arts[i])
  }

  ghost function Listed(arts: seq<Artifact>, s: seq<nat>): seq<Artifact>
    requires forall p :: 0 <= p < |s| ==> s[p] < |arts|
  {
    seq(|s|, p requires 0 <= p < |s| => arts[s[p]])
  }

  lemma GroupListed(sort: Sorter, arts: seq<Artifact>, byApp: bool, g: string)
    requires StableSorter(sort)
    ensures var out := GroupOrder(sort, arts, byApp, g);
            && (forall p :: 0 <= p < |out| ==> out[p] < |arts| && GroupOf(arts[out[p]], byApp) == g)
            && forall a :: a in Listed(arts, out) <==> a in arts && GroupOf(a, byApp) == g
  {
    var out := GroupOrder(sort, arts, byApp, g);
    GroupOrderIsPermutation(sort, arts, byApp, g);
    assert forall p :: 0 <= p < |out| ==> out[p] in out;
    forall a | a in arts && GroupOf(a, byApp) == g ensures a in Listed(arts, out) {
      var i :| 0 <= i < |arts| && arts[i] == a;
      assert i in out;
      var p :| 0 <= p < |out| && out[p] == i;
      assert Listed(arts, out)[p] == a;
    }
  }

  /** Without ties a sorted group lists its artifacts strictly from newest to oldest. */
  lemma SortedGroup(sort: Sorter, arts: seq<Artifact>, byApp: bool, g: string)
    requires StableSorter(sort) && CoherentListing(arts, byApp) && NoTies(arts, byApp)
    ensures var out := GroupOrder(sort, arts, byApp, g);
            && (forall p :: 0 <= p < |out| ==> out[p] < |arts| && GroupOf(arts[out[p]], byApp) == g)
            && Ordered(Newer, Listed(arts, out))
  {
    var out := GroupOrder(sort, arts, byApp, g);
    GroupListed(sort, arts, byApp, g);
    GroupOrderIsPermutation(sort, arts, byApp, g);
    GroupIsOrdered(sort, arts, byApp, g);
    forall p, q | 0 <= p < q < |out| ensures Newer(arts[out[p]], arts[out[q]]) {
      assert Order(arts)(out[p], out[q]);
      assert out[p] != out[q];
    }
  }

  /** `e` says where each artifact of `shuffled` stands in `arts`. */
  ghost predicate Reindexes(shuffled: seq<Artifact>, arts: seq<Artifact>, e: seq<nat>) {
    && |e| == |shuffled| && Distinct(e)
    && forall i :: 0 <= i < |e| ==> e[i] < |arts| && shuffled[i] == arts[e[i]]
  }

  lemma ShuffledPlaces(arts: seq<Artifact>, shuffled: seq<Artifact>) returns (e: seq<nat>)
    requires Permutation(shuffled, arts) && Distinct(arts)
    ensures Reindexes(shuffled, arts, e)
    ensures forall a :: a in arts <==> a in shuffled
  {
    DistinctFromMultiset(shuffled, arts);
    assert forall i :: 0 <= i < |shuffled| ==> shuffled[i] in shuffled;
    e := seq(|shuffled|, k requires 0 <= k < |shuffled| => Position(arts, shuffled[k]));
    forall i, j | 0 <= i < j < |e| ensures e[i] != e[j] {
      assert shuffled[i] != shuffled[j];
    }
  }

  lemma ReindexingKeepsOrder(arts: seq<Artifact>, shuffled: seq<Artifact>, e: seq<nat>, byApp: bool)
    requires Reindexes(shuffled, arts, e) && CoherentListing(arts, byApp) && NoTies(arts, byApp)
    ensures CoherentListing(shuffled, byApp) && NoTies(shuffled, byApp)
  {
    forall i, j | 0 <= i < |shuffled| && 0 <= j < |shuffled| && i != j
      && GroupOf(shuffled[i], byApp) == GroupOf(shuffled[j], byApp)
      ensures Newer(shuffled[i], shuffled[j]) || Newer(shuffled[j], shuffled[i])
    {
      assert e[i] != e[j] by { if i < j {} else {} }
    }
    forall x, y, z | 0 <= x < |shuffled| && 0 <= y < |shuffled| && 0 <= z < |shuffled|
      && GroupOf(shuffled[x], byApp) == GroupOf(shuffled[y], byApp) == GroupOf(shuffled[z], byApp)
      && Newer(shuffled[x], shuffled[z])
      ensures Newer(shuffled[x], shuffled[y]) || Newer(shuffled[y], shuffled[z])
    {
      assert shuffled[x] == arts[e[x]] && shuffled[y] == arts[e[y]] && shuffled[z] == arts[e[z]];
    }
  }

  lemma NoTiesIsDistinct(arts: seq<Artifact>, byApp: bool)
    requires NoTies(arts, byApp)
    ensures Distinct(arts)
  {
    forall i, j | 0 <= i < j < |arts| ensures arts[i] != arts[j] {
      if arts[i] == arts[j] {
        NewerAsymmetric(arts[i], arts[j]);
      }
    }
  }

  /** Two listings of the same artifacts in different orders come out the same, group by group. */
  lemma SortedGroupsAgree(sort: Sorter, arts: seq<Artifact>, shuffled: seq<Artifact>, byApp: bool, g: string)
    requires StableSorter(sort) && Permutation(shuffled, arts)
    requires CoherentListing(arts, byApp) && NoTies(arts, byApp)
    ensures var s, t := GroupOrder(sort, arts, byApp, g), GroupOrder(sort, shuffled, byApp, g);
            && (forall p :: 0 <= p < |s| ==> s[p] < |arts|) && (forall p :: 0 <= p < |t| ==> t[p] < |shuffled|)
            && Listed(arts, s) == Listed(shuffled, t) && Distinct(Listed(arts, s))
  {
    NoTiesIsDistinct(arts, byApp);
    var e := ShuffledPlaces(arts, shuffled);
    ReindexingKeepsOrder(arts, shuffled, e, byApp);
    var s, t := GroupOrder(sort, arts, byApp, g), GroupOrder(sort, shuffled, byApp, g);
    SortedGroup(sort, arts, byApp, g);
    SortedGroup(sort, shuffled, byApp, g);
    GroupListed(sort, arts, byApp, g);
    GroupListed(sort, shuffled, byApp, g);
    forall a, b | Newer(a, b) ensures !Newer(b, a) { NewerAsymmetric(a, b); }
    OrderedIsUnique(Newer, Listed(arts, s), Listed(shuffled, t));
    OrderedIsDistinct(Newer, Listed(arts, s));
  }

  /** Two listings of the same artifacts in different orders give every artifact the same decision. */
  lemma ListingOrderIsIrrelevant(sort: Sorter, arts: seq<Artifact>, shuffled: seq<Artifact>, rule: Rule, now: int,
                                 i: nat, j: nat)
    requires StableSorter(sort) && i < |arts| && j < |shuffled| && arts[i] == shuffled[j]
    requires Permutation(shuffled, arts)
    requires CoherentListing(arts, rule.groupByApp) && NoTies(arts, rule.groupByApp)
    ensures Decisions(sort, arts, rule, now)[i] == Decisions(sort, shuffled, rule, now)[j]
  {
    var byApp, g := rule.groupByApp, GroupOf(arts[i], rule.groupByApp);
    var s, t := GroupOrder(sort, arts, byApp, g), GroupOrder(sort, shuffled, byApp, g);
    GroupOrderIsPermutation(sort, arts, byApp, g);
    GroupOrderIsPermutation(sort, shuffled, byApp, g);
    SortedGroupsAgree(sort, arts, shuffled, byApp, g);
    var p, q := Position(s, i), Position(t, j);
    assert Listed(arts, s)[p] == Listed(shuffled, t)[q] == Listed(arts, s)[q];
    assert p == q;
  }

  lemma EarlierIsNewer(sort: Sorter, arts: seq<Artifact>, byApp: bool, g: string, rank: nat)
    requires StableSorter(sort) && CoherentListing(arts, byApp) && NoTies(arts, byApp)
    requires rank < |GroupOrder(sort, arts, byApp, g)|
    ensures var out := GroupOrder(sort, arts, byApp, g);
            out[rank] < |arts|
            && forall j :: j in out[..rank] ==>
                j < |arts| && GroupOf(arts[j], byApp) == g && Newer(arts[j], arts[out[rank]])
  {
    var out := GroupOrder(sort, arts, byApp, g);
    SortedGroup(sort, arts, byApp, g);
    forall j | j in out[..rank] ensures j < |arts| && GroupOf(arts[j], byApp) == g && Newer(arts[j], arts[out[rank]]) {
      var p :| 0 <= p < rank && out[p] == j;
      assert Newer(Listed(arts, out)[p], Listed(arts, out)[rank]);
    }
  }

  lemma DeletedIsBeyondReserve(sort: Sorter, arts: seq<Artifact>, rule: Rule, now: int, i: nat)
    requires StableSorter(sort) && i < |arts| && Decisions(sort, arts, rule, now)[i].delete
    ensures Rank(sort, arts, rule.groupByApp, i) >= Reserve(rule)
  {
    var rank := Rank(sort, arts, rule.groupByApp, i);
    if rank < Reserve(rule) { ReserveIsKept(arts[i], rule, now, rank); }
  }

  /** A deleted artifact has at least the reserve of strictly newer artifacts in its own group. */
  lemma NewerMates(sort: Sorter, arts: seq<Artifact>, rule: Rule, now: int, i: nat)
    requires StableSorter(sort) && i < |arts|
    requires CoherentListing(arts, rule.groupByApp) && NoTies(arts, rule.groupByApp)
    requires Decisions(sort, arts, rule, now)[i].delete
    ensures |set j: nat | 0 <= j < |arts| && GroupOf(arts[j], rule.groupByApp) == GroupOf(arts[i], rule.groupByApp)
                          && Newer(arts[j], arts[i])| >= Reserve(rule)
  {
    var byApp, g := rule.groupByApp, GroupOf(arts[i], rule.groupByApp);
    var mates := set j: nat | 0 <= j < |arts| && GroupOf(arts[j], byApp) == g && Newer(arts[j], arts[i]);
    var out := GroupOrder(sort, arts, byApp, g);
    var rank := Rank(sort, arts, byApp, i);
    GroupOrderIsPermutation(sort, arts, byApp, g);
    DeletedIsBeyondReserve(sort, arts, rule, now, i);
    EarlierIsNewer(sort, arts, byApp, g, rank);
    DistinctCardinality(out[..rank]);
    SubsetCardinality(Elements(out[..rank]), mates);
  }
}
