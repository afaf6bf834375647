/** A validated policy and a listing of three artifacts, one of them without a recognised tag, on which planning does
    not settle: carrying out one planned deletion makes the next plan delete what the first one kept. */
module Mixed {
  import opened Artifacts
  import opened Orders
  import opened Gregorian
  import opened Calendar
  import opened Policy
  import opened Config
  import opened Engine
  import opened Coherence
  import opened Planning
  import opened Limits
  import opened Convergence
  import opened Retention

  const FEBRUARY := Civil(2026, 2, 1)
  const JANUARY := Civil(2026, 1, 1)
  const MARCH := Civil(2026, 3, 1)

  const POLICY := PolicyConfig(
    [Target("registry", ["a"], [])], Tags("calendar", [], ""),
    0, 1, 0, 1, "", [], [], [], Some(false), 3, 100.0, None)

  function Tagged(id: string, tag: string): Artifact {
    Artifact("registry", "a", id, "", [tag], 0, ZERO_TIME, [], [])
  }

  /** As listed: the newer version has the lower ID, and the ID of the unrecognised artifact lies between. */
  function Raw(): seq<Artifact> {
    [Tagged("1", "v2026.02.01.1"), Tagged("3", "v2026.01.01.1"), Tagged("2", "latest")]
  }

  function Lists(): Lister { (name: string, t: nat) => Some(Raw()) }

  /** As evaluated. */
  function Versioned(): seq<Artifact> {
    [Raw()[0].(versions := [Version("v2026.02.01.1", Instant(FEBRUARY), 1, "")]),
     Raw()[1].(versions := [Version("v2026.01.01.1", Instant(JANUARY), 1, "")]),
     Raw()[2]]
  }

  lemma TwoDigits(n: nat, a: nat, b: nat)
    requires a < 10 && b < 10 && n == 10 * a + b
    ensures Padded(n, 2) == [DigitOf(a), DigitOf(b)]
  {
    assert n / 10 == a && n % 10 == b;
    assert Padded(a, 1) == [DigitOf(a)] by { assert Padded(a / 10, 0) == ""; }
  }

  lemma FourDigits(n: nat, a: nat, b: nat)
    requires a < 100 && b < 100 && n == 100 * a + b
    ensures Padded(n, 4) == Padded(a, 2) + Padded(b, 2)
  {
    assert n / 10 == 10 * a + b / 10 && n % 10 == b % 10;
    assert n / 10 / 10 == a && n / 10 % 10 == b / 10;
    assert Padded(n, 4) == Padded(n / 10, 3) + [DigitOf(n % 10)];
    assert Padded(n / 10, 3) == Padded(n / 10 / 10, 2) + [DigitOf(n / 10 % 10)];
    assert Padded(b, 2) == Padded(b / 10, 1) + [DigitOf(b % 10)];
    assert Padded(b / 10, 1) == Padded(b / 10 / 10, 0) + [DigitOf(b / 10 % 10)];
  }

  lemma PrintedTag(c: Civil, month: string, day: string)
    requires Printable(c) && Padded(c.year, 4) == "2026" && Padded(c.month, 2) == month && Padded(c.day, 2) == day
    ensures Print(c, 1, "") == "v2026." + month + "." + day + ".1"
  {
    var main := Joined("2026", month, day, "1");
    assert Print(c, 1, "") == "v" + (main + "") && main + "" == main;
    JoinedDate(month, day);
  }

  lemma JoinedDate(month: string, day: string)
    ensures "v" + Joined("2026", month, day, "1") == "v2026." + month + "." + day + ".1"
  {
  }

  lemma PaddedYear()
    ensures Padded(2026, 4) == "2026"
  {
    TwoDigits(20, 2, 0);
    TwoDigits(26, 2, 6);
    FourDigits(2026, 20, 26);
  }

  lemma PrintedTags()
    ensures Print(FEBRUARY, 1, "") == "v2026.02.01.1" && Print(JANUARY, 1, "") == "v2026.01.01.1"
  {
    PaddedYear();
    TwoDigits(1, 0, 1);
    TwoDigits(2, 0, 2);
    PrintedTag(FEBRUARY, "02", "01");
    PrintedTag(JANUARY, "01", "01");
  }

  lemma SingletonSorted(lib: Library, v: Version)
    requires LibraryOk(lib)
    ensures lib.versionSort([v]) == [v] && lib.versionSort([]) == []
  {
    var one, none := lib.versionSort([v]), lib.versionSort([]);
    assert |one| == |multiset(one)| == 1 && |none| == |multiset(none)| == 0;
    assert one[0] in multiset(one);
  }

  lemma ParsedOne(lib: Library, id: string, c: Civil, tag: string)
    requires LibraryOk(lib) && Printable(c) && tag == Print(c, 1, "")
    ensures Parsed(lib, Tagged(id, tag), POLICY.tags)
            == Ok(Tagged(id, tag).(versions := [Version(tag, Instant(c), 1, "")]))
  {
    var v := Version(tag, Instant(c), 1, "");
    PrintThenParse(c, 1, "");
    SingletonSorted(lib, v);
    assert Recognised(lib, POLICY.tags, [tag][..0]) == [];
    assert Recognised(lib, POLICY.tags, [tag]) == [v];
  }

  lemma ParsedUnrecognised(lib: Library, id: string)
    requires LibraryOk(lib)
    ensures Parsed(lib, Tagged(id, "latest"), POLICY.tags) == Ok(Tagged(id, "latest"))
  {
    SingletonSorted(lib, Version("", 0, 0, ""));
    assert Recognised(lib, POLICY.tags, ["latest"][..0]) == [];
    assert Recognised(lib, POLICY.tags, ["latest"]) == [];
  }

  lemma ParsedFebruary(lib: Library)
    requires LibraryOk(lib)
    ensures Parsed(lib, Raw()[0], POLICY.tags) == Ok(Versioned()[0])
  {
    PrintedTags();
    ParsedOne(lib, "1", FEBRUARY, "v2026.02.01.1");
  }

  lemma ParsedJanuary(lib: Library)
    requires LibraryOk(lib)
    ensures Parsed(lib, Raw()[1], POLICY.tags) == Ok(Versioned()[1])
  {
    PrintedTags();
    ParsedOne(lib, "3", JANUARY, "v2026.01.01.1");
  }

  lemma ParsedAll(lib: Library)
    requires LibraryOk(lib)
    ensures Sequence(ParseResults(lib, Raw(), POLICY.tags)) == Ok(Versioned())
  {
    ParsedFebruary(lib);
    ParsedJanuary(lib);
    ParsedUnrecognised(lib, "2");
    ThreeResults(ParseResults(lib, Raw(), POLICY.tags), Versioned());
  }

  lemma ThreeResults<T, E>(rs: seq<Result<T, E>>, values: seq<T>)
    requires |rs| == |values| == 3
    requires rs[0] == Ok(values[0]) && rs[1] == Ok(values[1]) && rs[2] == Ok(values[2])
    ensures Sequence(rs) == Ok(values)
  {
    SequenceOf(rs, values);
  }

  /** Each of the three artifacts is newer than the next in turn. */
  lemma MixedGroupsCycle()
    ensures var arts := Versioned(); Newer(arts[0], arts[1]) && Newer(arts[1], arts[2]) && Newer(arts[2], arts[0])
  {
    DayNumberAscends(JANUARY, FEBRUARY);
    assert Less("1", "2") && Less("2", "3");
  }

  lemma Unprotected(i: nat)
    requires i < 3
    ensures Deletes(Versioned()[i], RuleWith(POLICY, []), Instant(MARCH), 1)
  {
    var a, rule := Versioned()[i], RuleWith(POLICY, []);
    BeforeMarch(a);
    assert !TagProtected(a.tags, rule);
    assert !MultipleApps(a.versions) && Standing(a, rule) == [];
    RankDecides(a, rule, Instant(MARCH), 1);
  }

  lemma BeforeMarch(a: Artifact)
    requires a in Versioned()
    ensures BaseTime(a) < Instant(MARCH)
  {
    InstantsAscend(JANUARY, MARCH);
    InstantsAscend(FEBRUARY, MARCH);
    AfterEpoch(MARCH);
  }

  lemma AfterEpoch(c: Civil)
    requires RealDate(c) && c.year > 0
    ensures Instant(c) > 0
  {
    DayInYear(c);
    YearsAscend(0, c.year);
  }

  lemma InstantsAscend(c: Civil, d: Civil)
    requires RealDate(c) && RealDate(d)
    requires c.year < d.year || (c.year == d.year && c.month < d.month)
    ensures Instant(c) < Instant(d)
  {
    DayNumberAscends(c, d);
  }

  lemma CycleOfThree()
    ensures Cycle(Versioned(), RuleWith(POLICY, []), Instant(MARCH)) && DistinctKeys(Versioned())
  {
    MixedGroupsCycle();
    forall i: nat | i < 3 ensures Deletes(Versioned()[i], RuleWith(POLICY, []), Instant(MARCH), 1) { Unprotected(i); }
    forall i, j | 0 <= i < j < 3 ensures Key(Versioned()[i]) != Key(Versioned()[j]) {
      KeysIdentify(Versioned()[i], Versioned()[j]);
    }
  }

  /** The evaluation of the policy over some artifacts, and the run that consists of it. */
  ghost function Verdict(lib: Library, parsed: seq<Artifact>): Evaluation
    requires LibraryOk(lib)
  {
    Evaluation("p", RuleWith(POLICY, []), Decisions(lib.stableSort, parsed, RuleWith(POLICY, []), Instant(MARCH)))
  }

  lemma OneEvaluation(lib: Library, lister: Lister, arts: seq<Artifact>, parsed: seq<Artifact>)
    requires LibraryOk(lib) && lister("p", 0) == Some(arts) && arts != []
    requires Sequence(ParseResults(lib, arts, POLICY.tags)) == Ok(parsed)
    ensures Evaluations(lib, map["p" := POLICY], lister, Instant(MARCH)) == Ok([Verdict(lib, parsed)])
  {
    var rule := RuleWith(POLICY, []);
    var results := TargetResults(lib, "p", POLICY, rule, lister, Instant(MARCH));
    assert results == [Ok(Verdict(lib, parsed))];
    SequenceOf(results, [Verdict(lib, parsed)]);
    assert RuleOf(lib, POLICY) == Some(rule);
    OnlyPolicy(lib, "p", POLICY, lister, Instant(MARCH));
  }

  lemma {:induction false} DeletedWithinTotal(ds: seq<Decision>, scope: Scope)
    ensures Deleted(ds, scope) <= Total(ds, scope) <= |ds|
  {
    if |ds| > 0 {
      DeletedWithinTotal(ds[..|ds| - 1], scope);
    }
  }

  /** A single evaluation within its limits plans exactly what it votes out. */
  lemma SingleVerdict(e: Evaluation, fingerprint: string, now: int)
    requires |e.decisions| <= e.rule.maxDeleteCount && e.rule.maxDeletePercent == 100.0
    requires DistinctKeys(ArtifactsOf(e.decisions))
    ensures var plan := Conclude([e], fingerprint, now);
            && plan.Ok?
            && forall i :: 0 <= i < |e.decisions| ==>
                 (Key(e.decisions[i].artifact) in PlannedKeys(plan.value) <==> e.decisions[i].delete)
  {
    forall scope ensures Admits(e.rule, Deleted(e.decisions, scope), Total(e.decisions, scope)) {
      DeletedWithinTotal(e.decisions, scope);
      AtMostAHundred(Deleted(e.decisions, scope), Total(e.decisions, scope));
    }
    assert AllWithinLimits([e]);
    PlanIsTheVote([e], fingerprint, now);
    forall i: nat | i < |e.decisions|
      ensures Key(e.decisions[i].artifact) in PlannedKeys(Conclude([e], fingerprint, now).value)
              <==> e.decisions[i].delete
    {
      OnlyItsOwnVote(e, i);
    }
  }

  lemma OnlyItsOwnVote(e: Evaluation, i: nat)
    requires DistinctKeys(ArtifactsOf(e.decisions)) && i < |e.decisions|
    ensures Seen([e], Key(e.decisions[i].artifact))
    ensures NeverProtected([e], Key(e.decisions[i].artifact)) <==> e.decisions[i].delete
  {
    assert Decided([e], 0, i) && KeyAt([e], 0, i) == Key(e.decisions[i].artifact);
    forall y: nat, j: nat | Decided([e], y, j) && KeyAt([e], y, j) == KeyAt([e], 0, i) ensures j == i {
      KeysDiffer(ArtifactsOf(e.decisions), i, j);
    }
  }

  lemma VerdictOver(lib: Library, parsed: seq<Artifact>)
    requires LibraryOk(lib)
    ensures ArtifactsOf(Verdict(lib, parsed).decisions) == parsed
  {
  }

  lemma PlanOverThree(lib: Library, fingerprint: string, lister: Lister, arts: seq<Artifact>, parsed: seq<Artifact>)
    requires LibraryOk(lib) && lister("p", 0) == Some(arts) && 0 < |parsed| <= 3 && |arts| == |parsed|
    requires Sequence(ParseResults(lib, arts, POLICY.tags)) == Ok(parsed) && DistinctKeys(parsed)
    ensures var plan := PlanOf(lib, map["p" := POLICY], fingerprint, lister, Instant(MARCH));
            && plan.Ok?
            && forall i :: 0 <= i < |parsed| ==>
                 (Key(parsed[i]) in PlannedKeys(plan.value)
                  <==> Decisions(lib.stableSort, parsed, RuleWith(POLICY, []), Instant(MARCH))[i].delete)
  {
    OneEvaluation(lib, lister, arts, parsed);
    VerdictOver(lib, parsed);
    SingleVerdict(Verdict(lib, parsed), fingerprint, Instant(MARCH));
    assert forall i :: 0 <= i < |parsed| ==> ArtifactsOf(Verdict(lib, parsed).decisions)[i] == parsed[i];
  }

  lemma PolicyIsValid(lib: Library)
    ensures Validated(lib, {"registry"}, map["p" := POLICY])
  {
  }

  /** Whatever stable sort is used, the first plan keeps an artifact that the plan made after one of its deletions
      removes. */
  lemma MixedGroupsDoNotSettle(lib: Library, fingerprint: string) returns (gone: string, kept: string)
    requires LibraryOk(lib)
    ensures Validated(lib, {"registry"}, map["p" := POLICY])
    ensures var first := PlanOf(lib, map["p" := POLICY], fingerprint, Lists(), Instant(MARCH));
            var again := PlanOf(lib, map["p" := POLICY], fingerprint, Shrunk(Lists(), {gone}), Instant(MARCH));
            && first.Ok? && again.Ok? && gone in PlannedKeys(first.value)
            && kept !in PlannedKeys(first.value) && kept in PlannedKeys(again.value)
  {
    PolicyIsValid(lib);
    CycleOfThree();
    var out, index, k := CyclesDoNotSettle(lib.stableSort, Versioned(), RuleWith(POLICY, []), Instant(MARCH));
    gone, kept := Key(Versioned()[out]), Key(Versioned()[index]);
    PlanOverAll(lib, fingerprint);
    PlanOverTheRest(lib, fingerprint, {gone});
  }

  lemma PlanOverAll(lib: Library, fingerprint: string)
    requires LibraryOk(lib)
    ensures var plan := PlanOf(lib, map["p" := POLICY], fingerprint, Lists(), Instant(MARCH));
            && plan.Ok?
            && forall i :: 0 <= i < 3 ==>
                 (Key(Versioned()[i]) in PlannedKeys(plan.value)
                  <==> Decisions(lib.stableSort, Versioned(), RuleWith(POLICY, []), Instant(MARCH))[i].delete)
  {
    CycleOfThree();
    ParsedAll(lib);
    PlanOverThree(lib, fingerprint, Lists(), Raw(), Versioned());
  }

  lemma PlanOverTheRest(lib: Library, fingerprint: string, gone: set<string>)
    requires LibraryOk(lib) && Without(Versioned(), gone) != []
    ensures var rest := Without(Versioned(), gone);
            var plan := PlanOf(lib, map["p" := POLICY], fingerprint, Shrunk(Lists(), gone), Instant(MARCH));
            && plan.Ok?
            && forall i :: 0 <= i < |rest| ==>
                 (Key(rest[i]) in PlannedKeys(plan.value)
                  <==> Decisions(lib.stableSort, rest, RuleWith(POLICY, []), Instant(MARCH))[i].delete)
  {
    var rest := Without(Versioned(), gone);
    ParsedAll(lib);
    ParseThenRemove(lib, Raw(), POLICY.tags, gone);
    SequenceIff(ParseResults(lib, Without(Raw(), gone), POLICY.tags));
    CycleOfThree();
    StillDistinct(Versioned(), gone);
    SurvivorsEmbed(Versioned(), gone);
    AtMostAll(Versioned(), gone);
    PlanOverThree(lib, fingerprint, Shrunk(Lists(), gone), Without(Raw(), gone), rest);
  }

  lemma {:induction false} AtMostAll(arts: seq<Artifact>, gone: set<string>)
    ensures |Without(arts, gone)| <= |arts|
  {
    if |arts| > 0 {
      AtMostAll(arts[..|arts| - 1], gone);
    }
  }
}
