/** Groups that mix parsed and unparsed artifacts: exactly when the comparison ranks a listing consistently, and
    exactly when decisions survive removals. */
module Coherence {
  import opened Artifacts
  import opened Orders
  import opened Policy
  import opened Retention

  /** An unparsed artifact whose ID lies between the IDs of two parsed ones that their versions order the
      other way round. */
  ghost predicate Straddles(p: Artifact, c: Artifact, q: Artifact) {
    && |p.versions| > 0 && |q.versions| > 0 && |c.versions| == 0
    && Newer(p, q) && !Less(c.id, p.id) && !Less(q.id, c.id)
  }

  /** The comparison is consistent on a listing exactly when no group has such a triple; in particular on
      every listing whose groups are all parsed or all unparsed. */
  lemma CoherentIff(arts: seq<Artifact>, byApp: bool)
    ensures CoherentListing(arts, byApp)
            <==> forall x, y, z :: 0 <= x < |arts| && 0 <= y < |arts| && 0 <= z < |arts|
                   && GroupOf(arts[x], byApp) == GroupOf(arts[y], byApp) == GroupOf(arts[z], byApp)
                   ==> !Straddles(arts[x], arts[y], arts[z])
  {
    if CoherentListing(arts, byApp) {
      forall x, y, z | 0 <= x < |arts| && 0 <= y < |arts| && 0 <= z < |arts|
        && GroupOf(arts[x], byApp) == GroupOf(arts[y], byApp) == GroupOf(arts[z], byApp)
        ensures !Straddles(arts[x], arts[y], arts[z])
      {
      }
    } else {
      var x, y, z :| 0 <= x < |arts| && 0 <= y < |arts| && 0 <= z < |arts|
        && GroupOf(arts[x], byApp) == GroupOf(arts[y], byApp) == GroupOf(arts[z], byApp)
        && Newer(arts[x], arts[z]) && !Newer(arts[x], arts[y]) && !Newer(arts[y], arts[z]);
      InconsistencyStraddles(arts[x], arts[y], arts[z]);
    }
  }

  lemma InconsistencyStraddles(a: Artifact, b: Artifact, c: Artifact)
    requires Newer(a, c) && !Newer(a, b) && !Newer(b, c)
    ensures Straddles(a, b, c) || Straddles(b, c, a) || Straddles(c, a, b)
  {
    LessTotal(a.id, b.id); LessTotal(b.id, c.id); LessTotal(a.id, c.id);
    LessLaws();
    if |a.versions| > 0 && |b.versions| > 0 && |c.versions| > 0 {
      var av, bv, cv := a.versions[0], b.versions[0], c.versions[0];
      LessTotal(av.tag, bv.tag); LessTotal(bv.tag, cv.tag); LessTotal(av.tag, cv.tag);
    }
  }

  /** In particular, groups that are all parsed or all unparsed are ranked consistently. */
  lemma PureGroupsAreCoherent(arts: seq<Artifact>, byApp: bool)
    requires forall i, j :: 0 <= i < |arts| && 0 <= j < |arts| && GroupOf(arts[i], byApp) == GroupOf(arts[j], byApp)
                            ==> (|arts[i].versions| > 0 <==> |arts[j].versions| > 0)
    ensures CoherentListing(arts, byApp)
  {
    CoherentIff(arts, byApp);
  }

  /** Three artifacts of one group, each sorted before the next in turn, and nothing protecting any of them. */
  ghost predicate Cycle(arts: seq<Artifact>, rule: Rule, now: int) {
    && |arts| == 3
    && Before(arts, 0, 1) && Before(arts, 1, 2) && Before(arts, 2, 0)
    && (forall i, j :: 0 <= i < j < 3 ==> Key(arts[i]) != Key(arts[j]))
    && (forall i :: 0 <= i < 3 ==> GroupOf(arts[i], rule.groupByApp) == GroupOf(arts[0], rule.groupByApp))
    && Reserve(rule) == 1
    && (forall i :: 0 <= i < 3 ==> Deletes(arts[i], rule, now, 1))
  }

  /** Whatever the sort does with such a listing, one planned deletion, once carried out, turns an artifact that was
      kept into one to delete: the decisions do not survive the removal. */
  lemma CyclesDoNotSettle(sort: Sorter, arts: seq<Artifact>, rule: Rule, now: int)
    returns (gone: nat, kept: nat, k: nat)
    requires StableSorter(sort) && Cycle(arts, rule, now)
    ensures gone < 3 && kept < 3 && Decisions(sort, arts, rule, now)[gone].delete
    ensures !Decisions(sort, arts, rule, now)[kept].delete
    ensures var left := Without(arts, {Key(arts[gone])});
            k < |left| && left[k] == arts[kept] && Decisions(sort, left, rule, now)[k].delete
  {
    // The artifact that comes first stays; the one after it in the cycle is removed; the one before it wins.
    kept := RankedFirst(sort, arts, rule.groupByApp);
    gone, k := PairLeft(arts, rule, now, kept);
    OnlyFirstIsKept(sort, arts, rule, now, kept, gone);
    PreviousWins(sort, Without(arts, {Key(arts[gone])}), rule, now, k);
  }

  lemma RankedFirst(sort: Sorter, arts: seq<Artifact>, byApp: bool) returns (first: nat)
    requires StableSorter(sort) && |arts| > 0
    ensures first < |arts| && Rank(sort, arts, byApp, first) == 0
  {
    var g := GroupOf(arts[0], byApp);
    GroupOrderIsPermutation(sort, arts, byApp, g);
    assert 0 in GroupOrder(sort, arts, byApp, g);
    RankAtPosition(sort, arts, byApp, g, 0);
    first := GroupOrder(sort, arts, byApp, g)[0];
  }

  /** A cycle without the successor of one of its members is that member and its predecessor. */
  lemma PairLeft(arts: seq<Artifact>, rule: Rule, now: int, kept: nat) returns (next: nat, k: nat)
    requires Cycle(arts, rule, now) && kept < 3
    ensures next < 3 && next != kept && k < 2
    ensures var pair := Without(arts, {Key(arts[next])});
            && |pair| == 2 && pair[k] == arts[kept] && Before(pair, 1 - k, k)
            && GroupOf(pair[0], rule.groupByApp) == GroupOf(pair[1], rule.groupByApp) && Deletes(pair[k], rule, now, 1)
  {
    next := if kept == 2 then 0 else kept + 1;
    k := if kept == 0 then 0 else 1;
    WithoutOneOfThree(arts, next);
    var previous, pair := if kept == 0 then 2 else kept - 1, Without(arts, {Key(arts[next])});
    assert pair[1 - k] == arts[previous] && Before(arts, previous, kept) && (1 - k < k <==> previous < kept);
  }

  lemma PreviousWins(sort: Sorter, pair: seq<Artifact>, rule: Rule, now: int, k: nat)
    requires StableSorter(sort) && |pair| == 2 && k < 2 && Before(pair, 1 - k, k)
    requires GroupOf(pair[0], rule.groupByApp) == GroupOf(pair[1], rule.groupByApp)
    requires Deletes(pair[k], rule, now, 1)
    ensures Decisions(sort, pair, rule, now)[k].delete
  {
    SecondOfTwo(sort, pair, rule.groupByApp, k);
  }

  lemma OnlyFirstIsKept(sort: Sorter, arts: seq<Artifact>, rule: Rule, now: int, first: nat, other: nat)
    requires StableSorter(sort) && Cycle(arts, rule, now)
    requires first < 3 && other < 3 && first != other && Rank(sort, arts, rule.groupByApp, first) == 0
    ensures !Decisions(sort, arts, rule, now)[first].delete && Decisions(sort, arts, rule, now)[other].delete
  {
    ReserveIsKept(arts[first], rule, now, 0);
    RanksDiffer(sort, arts, rule.groupByApp, first, other);
    var rank := Rank(sort, arts, rule.groupByApp, other);
    assert rank >= 1;
    DecideBeyondReserve(arts[other], rule, now, rank, 1);
    assert Decisions(sort, arts, rule, now)[other] == Decide(arts[other], rule, now, 1);
  }

  lemma WithoutOneOfThree(arts: seq<Artifact>, j: nat)
    requires |arts| == 3 && j < 3
    requires Key(arts[0]) != Key(arts[1]) && Key(arts[1]) != Key(arts[2]) && Key(arts[0]) != Key(arts[2])
    ensures Without(arts, {Key(arts[j])})
            == if j == 0 then [arts[1], arts[2]] else if j == 1 then [arts[0], arts[2]] else [arts[0], arts[1]]
  {
    var gone := {Key(arts[j])};
    assert arts[..2][..1] == [arts[0]] && arts[..2] == [arts[0], arts[1]];
    assert Without([arts[0]], gone) == if j == 0 then [] else [arts[0]];
    assert Without(arts[..2], gone) == if j == 0 then [arts[1]] else if j == 1 then [arts[0]] else [arts[0], arts[1]];
  }

  lemma RanksDiffer(sort: Sorter, arts: seq<Artifact>, byApp: bool, i: nat, j: nat)
    requires StableSorter(sort) && i < |arts| && j < |arts| && i != j
    requires GroupOf(arts[i], byApp) == GroupOf(arts[j], byApp)
    ensures Rank(sort, arts, byApp, i) != Rank(sort, arts, byApp, j)
  {
  }

  lemma PairsAreCoherent(arts: seq<Artifact>, byApp: bool)
    requires |arts| == 2
    ensures CoherentListing(arts, byApp)
  {
    forall x, y, z | 0 <= x < 2 && 0 <= y < 2 && 0 <= z < 2 && Newer(arts[x], arts[z])
      ensures Newer(arts[x], arts[y]) || Newer(arts[y], arts[z])
    {
      NewerAsymmetric(arts[x], arts[z]);
      assert x != z && (y == x || y == z);
    }
  }

  /** Of two artifacts of one group the newer one, or the first of two that are tied, comes first. */
  lemma SecondOfTwo(sort: Sorter, arts: seq<Artifact>, byApp: bool, k: nat)
    requires StableSorter(sort) && |arts| == 2 && k < 2
    requires GroupOf(arts[0], byApp) == GroupOf(arts[1], byApp) && Before(arts, 1 - k, k)
    ensures Rank(sort, arts, byApp, k) == 1 && Rank(sort, arts, byApp, 1 - k) == 0
  {
    var g := GroupOf(arts[0], byApp);
    var out := GroupOrder(sort, arts, byApp, g);
    GroupOrderIsPermutation(sort, arts, byApp, g);
    PairsAreCoherent(arts, byApp);
    GroupIsOrdered(sort, arts, byApp, g);
    BeforeAsymmetric(arts, 1 - k, k);
    assert k in out && 1 - k in out;
    assert |out| == 2 by {
      assert Members(arts, byApp, g, 2) == [0, 1] by { assert Members(arts, byApp, g, 1) == [0]; }
    }
    assert Order(arts)(out[0], out[1]);
    PositionIsUnique(out, k, 1);
    PositionIsUnique(out, 1 - k, 0);
  }

  // Exactly when decisions survive removals.

  /** Nothing but the rule can protect the artifact. */
  ghost predicate Plain(a: Artifact) { |a.referrers| == 0 && !MultipleApps(a.versions) }

  ghost predicate DistinctKeys(arts: seq<Artifact>) {
    forall i, j :: 0 <= i < j < |arts| ==> Key(arts[i]) != Key(arts[j])
  }

  lemma KeysDiffer(arts: seq<Artifact>, i: nat, j: nat)
    requires DistinctKeys(arts) && i < |arts| && j < |arts|
    ensures i != j ==> Key(arts[i]) != Key(arts[j])
  {
    if i < j {} else {}
  }

  /** A rule that protects nothing but the newest artifacts of each group. */
  function Bare(byApp: bool, reserve: nat): Rule { Rule(0, 1, 0, reserve, byApp, [], [], {}, false, false, 1, 100.0) }

  lemma PlainIsUnprotected(a: Artifact, byApp: bool, reserve: nat)
    requires Plain(a)
    ensures Standing(a, Bare(byApp, reserve)) == []
  {
    assert !TagProtected(a.tags, Bare(byApp, reserve));
  }

  /** The instant the age of an artifact is counted from. */
  function BaseTime(a: Artifact): int {
    if |a.versions| > 0 then a.versions[0].date else if a.updatedAt != ZERO_TIME then a.updatedAt else a.createdAt
  }

  function Max(a: int, b: int): int { if a > b then a else b }

  /** A clock at which every artifact has an age. */
  function Late(arts: seq<Artifact>): (now: int)
    ensures forall a :: a in arts ==> BaseTime(a) < now
  {
    if |arts| == 0 then 0
    else
      assert arts == arts[..|arts| - 1] + [arts[|arts| - 1]];
      Max(Late(arts[..|arts| - 1]), BaseTime(arts[|arts| - 1]) + 1)
  }

  /** Without other protections the rank alone decides. */
  lemma RankDecides(a: Artifact, rule: Rule, now: int, rank: nat)
    requires Standing(a, rule) == [] && rule.keepNewerThan <= 0 && rule.deleteOlderThan == 1 && now > BaseTime(a)
    ensures Deletes(a, rule, now, rank) <==> rank >= Reserve(rule)
  {
    assert Age(a, now) >= 1;
    assert Applies(Latest, a, rule, now, rank) || Applies(Minimum, a, rule, now, rank) <==> rank < Reserve(rule);
  }

  /** Every artifact whose key is in `gone` is voted for deletion. */
  ghost predicate VotesOut(sort: Sorter, arts: seq<Artifact>, rule: Rule, now: int, gone: set<string>)
    requires StableSorter(sort)
  {
    forall i :: 0 <= i < |arts| && Key(arts[i]) in gone ==> Decisions(sort, arts, rule, now)[i].delete
  }

  /** Removing those artifacts leaves the other decisions as they were. */
  ghost predicate Survive(sort: Sorter, arts: seq<Artifact>, rule: Rule, now: int, gone: set<string>)
    requires StableSorter(sort)
  {
    Decisions(sort, Without(arts, gone), rule, now) == Remaining(Decisions(sort, arts, rule, now), gone)
  }

  /** Whatever the rule and the clock, the decisions on the listing survive the removal of artifacts voted out. */
  ghost predicate Settles(sort: Sorter, arts: seq<Artifact>, byApp: bool)
    requires StableSorter(sort)
  {
    forall rule: Rule, now: int, gone: set<string> ::
      rule.groupByApp == byApp && VotesOut(sort, arts, rule, now, gone) ==> Survive(sort, arts, rule, now, gone)
  }

  lemma CoherentSettles(sort: Sorter, arts: seq<Artifact>, byApp: bool)
    requires StableSorter(sort) && CoherentListing(arts, byApp)
    ensures Settles(sort, arts, byApp)
  {
    forall rule: Rule, now: int, gone: set<string>
      | rule.groupByApp == byApp && VotesOut(sort, arts, rule, now, gone)
      ensures Survive(sort, arts, rule, now, gone)
    {
      DecisionsSurviveRemoval(sort, arts, rule, now, gone);
    }
  }

  /** Decisions on a listing without ties survive removals exactly when its groups are ranked consistently. */
  lemma SettlesIff(sort: Sorter, arts: seq<Artifact>, byApp: bool)
    requires StableSorter(sort) && DistinctKeys(arts) && NoTies(arts, byApp) && forall a :: a in arts ==> Plain(a)
    ensures Settles(sort, arts, byApp) <==> CoherentListing(arts, byApp)
  {
    if CoherentListing(arts, byApp) {
      CoherentSettles(sort, arts, byApp);
    } else {
      var rule, now, gone, kept, k := Unsettled(sort, arts, byApp);
      ChangedMindDoesNotSettle(sort, arts, rule, now, gone, kept, k);
    }
  }

  /** An inversion of a sorted group: a later artifact is newer. */
  ghost predicate Inverted(s: seq<Artifact>, i: nat) {
    i < |s| && exists j :: i < j < |s| && Newer(s[j], s[i])
  }

  ghost predicate Comparable(s: seq<Artifact>) {
    forall i, j :: 0 <= i < |s| && 0 <= j < |s| && i != j ==> Newer(s[i], s[j]) || Newer(s[j], s[i])
  }

  lemma ChainIsConsistent(chain: seq<Artifact>, a: Artifact, b: Artifact, c: Artifact)
    requires Ordered(Newer, chain) && a in chain && b in chain && c in chain && Newer(a, c)
    ensures Newer(a, b) || Newer(b, c)
  {
    NewerAsymmetric(a, c);
    var p, q, r := Position(chain, a), Position(chain, b), Position(chain, c);
    assert p < r;
    if p < q { assert Newer(chain[p], chain[q]); } else { assert Newer(chain[q], chain[r]); }
  }

  lemma GroupIsComparable(sort: Sorter, arts: seq<Artifact>, byApp: bool, g: string)
    requires StableSorter(sort) && NoTies(arts, byApp)
    ensures var out := GroupOrder(sort, arts, byApp, g);
            && (forall p :: 0 <= p < |out| ==> out[p] < |arts|)
            && Comparable(Listed(arts, out))
  {
    var out := GroupOrder(sort, arts, byApp, g);
    GroupListed(sort, arts, byApp, g);
    GroupOrderIsPermutation(sort, arts, byApp, g);
    forall p, q | 0 <= p < |out| && 0 <= q < |out| && p != q
      ensures Newer(arts[out[p]], arts[out[q]]) || Newer(arts[out[q]], arts[out[p]])
    {
      assert out[p] != out[q] by { if p < q {} else {} }
    }
  }

  /** Some group of an inconsistent listing has an inversion, and so a first one, however it is sorted. */
  lemma FirstInversion(sort: Sorter, arts: seq<Artifact>, byApp: bool) returns (g: string, i: nat)
    requires StableSorter(sort) && NoTies(arts, byApp) && !CoherentListing(arts, byApp)
    ensures var out := GroupOrder(sort, arts, byApp, g);
            && (forall p :: 0 <= p < |out| ==> out[p] < |arts|)
            && Comparable(Listed(arts, out)) && Inverted(Listed(arts, out), i)
            && forall k :: 0 <= k < i ==> !Inverted(Listed(arts, out), k)
  {
    var x, y, z :| 0 <= x < |arts| && 0 <= y < |arts| && 0 <= z < |arts|
      && GroupOf(arts[x], byApp) == GroupOf(arts[y], byApp) == GroupOf(arts[z], byApp)
      && Newer(arts[x], arts[z]) && !Newer(arts[x], arts[y]) && !Newer(arts[y], arts[z]);
    g := GroupOf(arts[x], byApp);
    var out := GroupOrder(sort, arts, byApp, g);
    GroupListed(sort, arts, byApp, g);
    GroupIsComparable(sort, arts, byApp, g);
    var listed := Listed(arts, out);
    assert arts[x] in listed && arts[y] in listed && arts[z] in listed;
    i := LeastInversion(listed, arts[x], arts[y], arts[z]);
  }

  lemma LeastInversion(s: seq<Artifact>, a: Artifact, b: Artifact, c: Artifact) returns (i: nat)
    requires Comparable(s) && a in s && b in s && c in s && Newer(a, c) && !Newer(a, b) && !Newer(b, c)
    ensures Inverted(s, i) && forall k :: 0 <= k < i ==> !Inverted(s, k)
  {
    i := 0;
    while i < |s| && !Inverted(s, i)
      invariant i <= |s| && forall k :: 0 <= k < i ==> !Inverted(s, k)
    {
      i := i + 1;
    }
    if i == |s| {
      UninvertedIsOrdered(s);
      ChainIsConsistent(s, a, b, c);
    }
  }

  lemma UninvertedIsOrdered(s: seq<Artifact>)
    requires Comparable(s) && forall k :: 0 <= k < |s| ==> !Inverted(s, k)
    ensures Ordered(Newer, s)
  {
    forall i, j | 0 <= i < j < |s| ensures Newer(s[i], s[j]) {
      assert !Inverted(s, i);
    }
  }

  /** The artifacts up to the first inversion, with one that inverts it in its place before the last. */
  function Chain(s: seq<Artifact>, i: nat, j: nat): seq<Artifact>
    requires i < j < |s|
  {
    s[..i] + [s[j], s[i]]
  }

  lemma ChainIsOrdered(s: seq<Artifact>, i: nat, j: nat)
    requires Comparable(s) && i < j < |s| && Newer(s[j], s[i]) && forall k :: 0 <= k < i ==> !Inverted(s, k)
    ensures Ordered(Newer, Chain(s, i, j))
  {
    var chain := Chain(s, i, j);
    forall p, q | 0 <= p < q < |chain| ensures Newer(chain[p], chain[q]) {
      if p < i {
        assert !Inverted(s, p) && chain[p] == s[p];
        var there := if q < i then q else if q == i then j else i;
        assert chain[q] == s[there] && p < there && !Newer(s[there], s[p]);
      }
    }
  }

  /** The last artifact of a chain comes last in its group. */
  lemma LastOfChain(sort: Sorter, arts: seq<Artifact>, byApp: bool, chain: seq<Artifact>, k: nat)
    requires StableSorter(sort) && DistinctKeys(arts) && k < |arts| && Ordered(Newer, chain)
    requires |chain| > 0 && arts[k] == chain[|chain| - 1]
    requires forall m :: 0 <= m < |arts| && GroupOf(arts[m], byApp) == GroupOf(arts[k], byApp) ==> arts[m] in chain
    ensures Rank(sort, arts, byApp, k) == |GroupOrder(sort, arts, byApp, GroupOf(arts[k], byApp))| - 1
  {
    var g := GroupOf(arts[k], byApp);
    var out := GroupOrder(sort, arts, byApp, g);
    GroupOrderIsPermutation(sort, arts, byApp, g);
    ChainGroupIsOrdered(sort, arts, byApp, g, chain);
    assert k in out;
    var p, n := Position(out, k), |out| - 1;
    assert out[n] in out;
    OthersAreNewer(arts, chain, k, out[n]);
    if p < n {
      assert Order(arts)(out[p], out[n]);
      BeforeAsymmetric(arts, k, out[n]);
    }
  }

  lemma OthersAreNewer(arts: seq<Artifact>, chain: seq<Artifact>, k: nat, m: nat)
    requires DistinctKeys(arts) && k < |arts| && m < |arts| && Ordered(Newer, chain)
    requires |chain| > 0 && arts[k] == chain[|chain| - 1] && arts[m] in chain
    ensures m == k || Before(arts, m, k)
  {
    KeysDiffer(arts, m, k);
    var p := Position(chain, arts[m]);
    if p < |chain| - 1 { assert Newer(chain[p], chain[|chain| - 1]); }
  }

  lemma ChainGroupIsOrdered(sort: Sorter, arts: seq<Artifact>, byApp: bool, g: string, chain: seq<Artifact>)
    requires StableSorter(sort) && Ordered(Newer, chain)
    requires forall m :: 0 <= m < |arts| && GroupOf(arts[m], byApp) == g ==> arts[m] in chain
    ensures Ordered(Order(arts), GroupOrder(sort, arts, byApp, g))
  {
    var idx := Members(arts, byApp, g, |arts|);
    MembersAreTheGroup(arts, byApp, g, |arts|);
    forall x, y, z | x in idx && y in idx && z in idx && Newer(arts[x], arts[z])
      ensures Newer(arts[x], arts[y]) || Newer(arts[y], arts[z])
    {
      ChainIsConsistent(chain, arts[x], arts[y], arts[z]);
    }
    assert IndicesOf(arts, idx) && Coherent(arts, idx);
  }

  /** The keys after the first inversion, but for the one that inverts it. */
  ghost function LaterKeys(arts: seq<Artifact>, out: seq<nat>, i: nat, j: nat): set<string>
    requires forall p :: 0 <= p < |out| ==> out[p] < |arts|
  {
    set q | 0 <= q < |out| && i < q && q != j :: Key(arts[out[q]])
  }

  /** Which artifacts of the group stay when those keys go. */
  lemma ChainStays(sort: Sorter, arts: seq<Artifact>, byApp: bool, g: string, i: nat, j: nat, q: nat)
    requires StableSorter(sort) && DistinctKeys(arts)
    requires var out := GroupOrder(sort, arts, byApp, g);
             q < |out| && forall p :: 0 <= p < |out| ==> out[p] < |arts|
    ensures var out := GroupOrder(sort, arts, byApp, g);
            Key(arts[out[q]]) in LaterKeys(arts, out, i, j) <==> i < q && q != j
  {
    var out := GroupOrder(sort, arts, byApp, g);
    GroupOrderIsPermutation(sort, arts, byApp, g);
    if r :| 0 <= r < |out| && i < r && r != j && Key(arts[out[r]]) == Key(arts[out[q]]) {
      KeysDiffer(arts, out[r], out[q]);
      assert r == q by { if r < q {} else {} }
    }
  }

  /** After their removal the group is the chain. */
  lemma WhatIsLeftIsTheChain(sort: Sorter, arts: seq<Artifact>, byApp: bool, g: string, i: nat, j: nat)
    requires StableSorter(sort) && DistinctKeys(arts)
    requires var out := GroupOrder(sort, arts, byApp, g);
             i < j < |out| && forall p :: 0 <= p < |out| ==> out[p] < |arts|
    ensures var out := GroupOrder(sort, arts, byApp, g);
            var small := Without(arts, LaterKeys(arts, out, i, j));
            && (forall m :: 0 <= m < |small| && GroupOf(small[m], byApp) == g ==>
                  small[m] in Chain(Listed(arts, out), i, j))
            && |GroupOrder(sort, small, byApp, g)| >= i + 2
  {
    var out := GroupOrder(sort, arts, byApp, g);
    var gone := LaterKeys(arts, out, i, j);
    var small, e, chain := Without(arts, gone), Survivors(arts, gone), Chain(Listed(arts, out), i, j);
    SurvivorsEmbed(arts, gone);
    GroupOrderIsPermutation(sort, arts, byApp, g);
    forall m | 0 <= m < |small| && GroupOf(small[m], byApp) == g ensures small[m] in chain {
      assert e[m] in out;
      var q := Position(out, e[m]);
      assert e[m] in e;
      ChainStays(sort, arts, byApp, g, i, j, q);
      assert small[m] == Listed(arts, out)[q];
      assert chain[if q < i then q else if q == j then i else i + 1] == small[m];
    }
    ChainSize(sort, arts, byApp, g, i, j);
  }

  lemma ChainSize(sort: Sorter, arts: seq<Artifact>, byApp: bool, g: string, i: nat, j: nat)
    requires StableSorter(sort) && DistinctKeys(arts)
    requires var out := GroupOrder(sort, arts, byApp, g);
             i < j < |out| && forall p :: 0 <= p < |out| ==> out[p] < |arts|
    ensures var gone := LaterKeys(arts, GroupOrder(sort, arts, byApp, g), i, j);
            |GroupOrder(sort, Without(arts, gone), byApp, g)| >= i + 2
  {
    var out := GroupOrder(sort, arts, byApp, g);
    var gone := LaterKeys(arts, out, i, j);
    var small, e := Without(arts, gone), Survivors(arts, gone);
    SurvivorsEmbed(arts, gone);
    GroupOrderIsPermutation(sort, arts, byApp, g);
    MappedElements(sort, small, arts, e, byApp, g);
    var stay, left := Picked(out, i, j), Mapped(e, GroupOrder(sort, small, byApp, g));
    forall p | 0 <= p < |stay| ensures stay[p] in left {
      PickedStays(sort, arts, byApp, g, i, j, if p <= i then p else j);
    }
    AtLeastAsMany(stay, left);
  }

  lemma PickedStays(sort: Sorter, arts: seq<Artifact>, byApp: bool, g: string, i: nat, j: nat, q: nat)
    requires StableSorter(sort) && DistinctKeys(arts) && (q <= i || q == j)
    requires var out := GroupOrder(sort, arts, byApp, g);
             q < |out| && forall p :: 0 <= p < |out| ==> out[p] < |arts|
    ensures var out := GroupOrder(sort, arts, byApp, g);
            out[q] in out && out[q] in Survivors(arts, LaterKeys(arts, out, i, j))
  {
    ChainStays(sort, arts, byApp, g, i, j, q);
    SurvivorsEmbed(arts, LaterKeys(arts, GroupOrder(sort, arts, byApp, g), i, j));
  }

  /** The elements up to one position and a later one. */
  function Picked<T>(s: seq<T>, i: nat, j: nat): (r: seq<T>)
    requires i < j < |s|
    ensures |r| == i + 2 && forall p :: 0 <= p < |r| ==> r[p] == s[if p <= i then p else j]
  {
    s[..i + 1] + [s[j]]
  }

  lemma AtLeastAsMany<T>(some: seq<T>, all: seq<T>)
    requires Distinct(some) && forall p :: 0 <= p < |some| ==> some[p] in all
    ensures |some| <= |all|
  {
    DistinctCardinality(some);
    SubsetCardinality(Elements(some), Elements(all));
    ElementsAtMost(all);
  }

  /** In an inconsistent listing without ties some rule, clock and removal change a decision: keep the artifacts up
      to the first inversion of a sorted group, and remove every later one but one that inverts it. */
  lemma Unsettled(sort: Sorter, arts: seq<Artifact>, byApp: bool)
    returns (rule: Rule, now: int, gone: set<string>, kept: nat, k: nat)
    requires StableSorter(sort) && DistinctKeys(arts) && NoTies(arts, byApp) && forall a :: a in arts ==> Plain(a)
    requires !CoherentListing(arts, byApp)
    ensures rule.groupByApp == byApp
    ensures VotesOut(sort, arts, rule, now, gone)
    ensures kept < |arts| && k < |Without(arts, gone)| && Without(arts, gone)[k] == arts[kept]
    ensures !Decisions(sort, arts, rule, now)[kept].delete && Decisions(sort, Without(arts, gone), rule, now)[k].delete
  {
    var g, i := FirstInversion(sort, arts, byApp);
    var out := GroupOrder(sort, arts, byApp, g);
    var listed := Listed(arts, out);
    var j :| i < j < |listed| && Newer(listed[j], listed[i]);
    rule, now, kept, gone := Bare(byApp, i + 1), Late(arts), out[i], LaterKeys(arts, out, i, j);
    KeptUpToInversion(sort, arts, byApp, g, i, j);
    ChainIsOrdered(listed, i, j);
    k := PlaceLeft(arts, gone, kept);
    FallsBehind(sort, arts, byApp, g, i, j, k);
  }

  /** With a reserve up to the first inversion everything later in the group is voted out, and nothing up to it. */
  lemma KeptUpToInversion(sort: Sorter, arts: seq<Artifact>, byApp: bool, g: string, i: nat, j: nat)
    requires StableSorter(sort) && DistinctKeys(arts) && forall a :: a in arts ==> Plain(a)
    requires var out := GroupOrder(sort, arts, byApp, g);
             i < j < |out| && forall p :: 0 <= p < |out| ==> out[p] < |arts|
    ensures var out, ds := GroupOrder(sort, arts, byApp, g), Decisions(sort, arts, Bare(byApp, i + 1), Late(arts));
            var gone := LaterKeys(arts, out, i, j);
            && !ds[out[i]].delete && Key(arts[out[i]]) !in gone
            && forall m :: 0 <= m < |arts| && Key(arts[m]) in gone ==> ds[m].delete
  {
    var out, rule, now := GroupOrder(sort, arts, byApp, g), Bare(byApp, i + 1), Late(arts);
    forall m: nat | m < |arts| && Key(arts[m]) in LaterKeys(arts, out, i, j)
      ensures Decisions(sort, arts, rule, now)[m].delete
    {
      LaterIsDeleted(sort, arts, byApp, g, i, j, m);
    }
    RankAtPosition(sort, arts, byApp, g, i);
    ReserveIsKept(arts[out[i]], rule, now, i);
    ChainStays(sort, arts, byApp, g, i, j, i);
  }

  /** Once the chain is all that is left of the group, its last artifact is one rank further down. */
  lemma FallsBehind(sort: Sorter, arts: seq<Artifact>, byApp: bool, g: string, i: nat, j: nat, k: nat)
    requires StableSorter(sort) && DistinctKeys(arts) && forall a :: a in arts ==> Plain(a)
    requires var out := GroupOrder(sort, arts, byApp, g);
             && i < j < |out| && (forall p :: 0 <= p < |out| ==> out[p] < |arts|)
             && Ordered(Newer, Chain(Listed(arts, out), i, j))
             && var small := Without(arts, LaterKeys(arts, out, i, j));
                k < |small| && small[k] == arts[out[i]]
    ensures var gone := LaterKeys(arts, GroupOrder(sort, arts, byApp, g), i, j);
            Decisions(sort, Without(arts, gone), Bare(byApp, i + 1), Late(arts))[k].delete
  {
    var out := GroupOrder(sort, arts, byApp, g);
    var gone := LaterKeys(arts, out, i, j);
    var small, chain := Without(arts, gone), Chain(Listed(arts, out), i, j);
    StillDistinct(arts, gone);
    RankAtPosition(sort, arts, byApp, g, i);
    WhatIsLeftIsTheChain(sort, arts, byApp, g, i, j);
    assert chain[|chain| - 1] == small[k];
    LastOfChain(sort, small, byApp, chain, k);
    assert small[k] in arts;
    PlainIsUnprotected(small[k], byApp, i + 1);
    RankDecides(small[k], Bare(byApp, i + 1), Late(arts), Rank(sort, small, byApp, k));
  }

  lemma LaterIsDeleted(sort: Sorter, arts: seq<Artifact>, byApp: bool, g: string, i: nat, j: nat, m: nat)
    requires StableSorter(sort) && DistinctKeys(arts) && m < |arts| && forall a :: a in arts ==> Plain(a)
    requires forall p :: 0 <= p < |GroupOrder(sort, arts, byApp, g)| ==> GroupOrder(sort, arts, byApp, g)[p] < |arts|
    requires Key(arts[m]) in LaterKeys(arts, GroupOrder(sort, arts, byApp, g), i, j)
    ensures Decisions(sort, arts, Bare(byApp, i + 1), Late(arts))[m].delete
  {
    var out := GroupOrder(sort, arts, byApp, g);
    var q :| 0 <= q < |out| && i < q && q != j && Key(arts[out[q]]) == Key(arts[m]);
    KeysDiffer(arts, out[q], m);
    RankAtPosition(sort, arts, byApp, g, q);
    PlainIsUnprotected(arts[m], byApp, i + 1);
    RankDecides(arts[m], Bare(byApp, i + 1), Late(arts), q);
  }

  lemma PlaceLeft(arts: seq<Artifact>, gone: set<string>, kept: nat) returns (k: nat)
    requires kept < |arts| && Key(arts[kept]) !in gone
    ensures k < |Without(arts, gone)| && Without(arts, gone)[k] == arts[kept]
  {
    SurvivorsEmbed(arts, gone);
    assert kept in Survivors(arts, gone);
    k := Position(Survivors(arts, gone), kept);
  }

  lemma StillDistinct(arts: seq<Artifact>, gone: set<string>)
    requires DistinctKeys(arts)
    ensures DistinctKeys(Without(arts, gone))
  {
    SurvivorsEmbed(arts, gone);
  }

  lemma SurvivorPlace(arts: seq<Artifact>, gone: set<string>, kept: nat, k: nat)
    requires DistinctKeys(arts) && kept < |arts| && k < |Without(arts, gone)| && Without(arts, gone)[k] == arts[kept]
    ensures k < |Survivors(arts, gone)| && Survivors(arts, gone)[k] == kept
  {
    SurvivorsEmbed(arts, gone);
    KeysDiffer(arts, Survivors(arts, gone)[k], kept);
  }

  /** A decision that changed when artifacts voted for deletion were removed. */
  lemma ChangedMindDoesNotSettle(sort: Sorter, arts: seq<Artifact>, rule: Rule, now: int, gone: set<string>,
                                 kept: nat, k: nat)
    requires StableSorter(sort) && DistinctKeys(arts) && VotesOut(sort, arts, rule, now, gone)
    requires kept < |arts| && k < |Without(arts, gone)| && Without(arts, gone)[k] == arts[kept]
    requires !Decisions(sort, arts, rule, now)[kept].delete && Decisions(sort, Without(arts, gone), rule, now)[k].delete
    ensures !Settles(sort, arts, rule.groupByApp)
  {
    SurvivorPlace(arts, gone, kept, k);
    RemainingAt(Decisions(sort, arts, rule, now), arts, gone);
    assert !Survive(sort, arts, rule, now, gone);
  }

  // The same with ties, for every part of a listing in every order.

  ghost predicate PartOf(listing: seq<Artifact>, arts: seq<Artifact>) {
    DistinctKeys(listing) && forall a :: a in listing ==> a in arts
  }

  /** Decisions survive removals on every selection of artifacts of the listing, in every order, exactly when its
      groups are ranked consistently; ties are allowed here. */
  lemma EveryPartSettlesIff(sort: Sorter, arts: seq<Artifact>, byApp: bool)
    requires StableSorter(sort) && DistinctKeys(arts) && forall a :: a in arts ==> Plain(a)
    ensures (forall listing :: PartOf(listing, arts) ==> Settles(sort, listing, byApp))
            <==> CoherentListing(arts, byApp)
  {
    if CoherentListing(arts, byApp) {
      forall listing | PartOf(listing, arts) ensures Settles(sort, listing, byApp) {
        CoherentPart(arts, listing, byApp);
        CoherentSettles(sort, listing, byApp);
      }
    } else {
      var listing, rule, now := CycleWithin(arts, byApp);
      CycleIsUnsettled(sort, listing, rule, now);
      assert PartOf(listing, arts) && !Settles(sort, listing, byApp);
    }
  }

  lemma CycleIsUnsettled(sort: Sorter, arts: seq<Artifact>, rule: Rule, now: int)
    requires StableSorter(sort) && Cycle(arts, rule, now) && DistinctKeys(arts)
    ensures !Settles(sort, arts, rule.groupByApp)
  {
    var gone, kept, k := CyclesDoNotSettle(sort, arts, rule, now);
    OnlyOneGoes(sort, arts, rule, now, gone);
    ChangedMindDoesNotSettle(sort, arts, rule, now, {Key(arts[gone])}, kept, k);
  }

  lemma OnlyOneGoes(sort: Sorter, arts: seq<Artifact>, rule: Rule, now: int, gone: nat)
    requires StableSorter(sort) && DistinctKeys(arts) && gone < |arts| && Decisions(sort, arts, rule, now)[gone].delete
    ensures VotesOut(sort, arts, rule, now, {Key(arts[gone])})
  {
    forall i: nat | i < |arts| && Key(arts[i]) == Key(arts[gone]) ensures i == gone { KeysDiffer(arts, i, gone); }
  }

  lemma CoherentPart(arts: seq<Artifact>, listing: seq<Artifact>, byApp: bool)
    requires CoherentListing(arts, byApp) && forall a :: a in listing ==> a in arts
    ensures CoherentListing(listing, byApp)
  {
    forall x, y, z | 0 <= x < |listing| && 0 <= y < |listing| && 0 <= z < |listing|
      && GroupOf(listing[x], byApp) == GroupOf(listing[y], byApp) == GroupOf(listing[z], byApp)
      && Newer(listing[x], listing[z])
      ensures Newer(listing[x], listing[y]) || Newer(listing[y], listing[z])
    {
      assert listing[x] in arts && listing[y] in arts && listing[z] in arts;
    }
  }

  /** An unparsed artifact between two parsed ones makes a cycle, whatever else is tied. */
  lemma StraddlingCycles(p: Artifact, c: Artifact, q: Artifact, byApp: bool)
    requires Straddles(p, c, q) && GroupOf(p, byApp) == GroupOf(c, byApp) == GroupOf(q, byApp)
    requires Plain(p) && Plain(c) && Plain(q) && Key(p) != Key(c) && Key(c) != Key(q) && Key(p) != Key(q)
    ensures Cycle([q, c, p], Bare(byApp, 1), Late([q, c, p]))
  {
    var listing := [q, c, p];
    assert q in listing && c in listing && p in listing;
    NewestIsEnough(q, byApp, Late(listing));
    NewestIsEnough(c, byApp, Late(listing));
    NewestIsEnough(p, byApp, Late(listing));
    NewerAsymmetric(p, q);
    assert Before(listing, 0, 1) && Before(listing, 1, 2) && Before(listing, 2, 0);
  }

  lemma NewestIsEnough(a: Artifact, byApp: bool, now: int)
    requires Plain(a) && now > BaseTime(a)
    ensures Deletes(a, Bare(byApp, 1), now, 1)
  {
    PlainIsUnprotected(a, byApp, 1);
    RankDecides(a, Bare(byApp, 1), now, 1);
  }

  lemma StraddlingTriple(arts: seq<Artifact>, byApp: bool) returns (x: nat, y: nat, z: nat)
    requires !CoherentListing(arts, byApp) && DistinctKeys(arts)
    ensures x < |arts| && y < |arts| && z < |arts| && Straddles(arts[x], arts[y], arts[z])
    ensures GroupOf(arts[x], byApp) == GroupOf(arts[y], byApp) == GroupOf(arts[z], byApp)
    ensures Key(arts[x]) != Key(arts[y]) && Key(arts[y]) != Key(arts[z]) && Key(arts[x]) != Key(arts[z])
  {
    CoherentIff(arts, byApp);
    x, y, z :| 0 <= x < |arts| && 0 <= y < |arts| && 0 <= z < |arts|
      && GroupOf(arts[x], byApp) == GroupOf(arts[y], byApp) == GroupOf(arts[z], byApp)
      && Straddles(arts[x], arts[y], arts[z]);
    NewerAsymmetric(arts[x], arts[z]);
    KeysDiffer(arts, x, y);
    KeysDiffer(arts, y, z);
    KeysDiffer(arts, x, z);
  }

  lemma CycleWithin(arts: seq<Artifact>, byApp: bool) returns (listing: seq<Artifact>, rule: Rule, now: int)
    requires !CoherentListing(arts, byApp) && DistinctKeys(arts) && forall a :: a in arts ==> Plain(a)
    ensures Cycle(listing, rule, now) && rule.groupByApp == byApp && PartOf(listing, arts)
  {
    var x, y, z := StraddlingTriple(arts, byApp);
    listing, rule := [arts[z], arts[y], arts[x]], Bare(byApp, 1);
    now := Late(listing);
    StraddlingCycles(arts[x], arts[y], arts[z], byApp);
  }
}
