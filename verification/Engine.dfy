/** Planning: parsing artifacts, folding the votes of every policy and target, and the safety limits. */
module Engine {
  import opened Artifacts
  import opened Orders
  import opened Policy
  import opened Config
  import opened Calendar

  const FORMAT_VERSION := "v1"
  const HOUR := 3_600_000_000_000

  datatype Action = Action(policy: string, reasons: seq<Reason>, artifact: Artifact)

  datatype Plan = Plan(version: string, createdAt: int, expiresAt: int, fingerprint: string,
                       actions: seq<Action>, discovered: int, protected: int)

  datatype PlanError =
    | BadRule(policy: string)
    | DiscoveryFailed(policy: string, registry: string)
    | NothingDiscovered(policy: string, registry: string)
    | BadParser(policy: string)
    | LimitExceeded(policy: string)

  /** The key names one artifact of one repository of one registry, as long as no name holds the separator. */
  lemma KeysIdentify(a: Artifact, b: Artifact)
    requires '\0' !in a.registry && '\0' !in a.repository && '\0' !in b.registry && '\0' !in b.repository
    ensures Key(a) == Key(b) <==> a.registry == b.registry && a.repository == b.repository && a.id == b.id
  {
    KeyParts(a);
    KeyParts(b);
  }

  lemma KeyParts(a: Artifact)
    requires '\0' !in a.registry && '\0' !in a.repository
    ensures var (registry, rest, _) := Cut(Key(a), '\0');
            registry == a.registry && Cut(rest, '\0') == (a.repository, a.id, true)
  {
    assert Key(a) == a.registry + "\0" + (a.repository + "\0" + a.id);
    CutAt(a.registry, '\0', a.repository + "\0" + a.id);
    CutAt(a.repository, '\0', a.id);
  }

  // Parsing the tags of an artifact.

  function Capture(m: map<string, string>, name: string): string { if name in m then m[name] else "" }

  /** The calendar tag a custom match stands for. */
  function Normalized(m: map<string, string>): string {
    "v" + Capture(m, "year") + "." + Capture(m, "month") + "." + Capture(m, "day") + "." + Capture(m, "sequence")
    + (if Capture(m, "app") == "" then "" else "-" + Capture(m, "app"))
  }

  function ParseRegex(lib: Library, tag: string, expression: string): Option<Version> {
    if !ValidRegexParser(lib, expression) then None
    else
      match lib.captures(expression, tag)
      case None => None
      case Some(m) =>
        match ParseCalendar(Normalized(m))
        case Err(_) => None
        case Ok(v) => Some(v.(tag := tag))
  }

  function ParseTag(lib: Library, tags: Tags, tag: string): Option<Version> {
    if tags.parser == "calendar" then
      match ParseCalendar(tag)
      case Err(_) => None
      case Ok(v) => Some(v)
    else ParseRegex(lib, tag, tags.regex)
  }

  predicate PatternAllows(v: Version, patterns: seq<string>) {
    || patterns == []
    || ("vYYYY.MM.DD.x" in patterns && v.app == "")
    || ("vYYYY.MM.DD.x-{app}" in patterns && v.app != "")
  }

  /** The versions recognised among some tags, in tag order. */
  function Recognised(lib: Library, tags: Tags, names: seq<string>): seq<Version> {
    if |names| == 0 then []
    else
      var init := Recognised(lib, tags, names[..|names| - 1]);
      var parsed := ParseTag(lib, tags, names[|names| - 1]);
      if parsed.Some? && PatternAllows(parsed.value, tags.patterns) then init + [parsed.value] else init
  }

  lemma RecognisedStep(lib: Library, tags: Tags, names: seq<string>, i: nat)
    requires i < |names|
    ensures Recognised(lib, tags, names[..i + 1])
            == Recognised(lib, tags, names[..i])
               + (var parsed := ParseTag(lib, tags, names[i]);
                  if parsed.Some? && PatternAllows(parsed.value, tags.patterns) then [parsed.value] else [])
  {
    assert names[..i + 1][..i] == names[..i];
  }

  predicate KnownParser(tags: Tags) { tags.parser == "calendar" || tags.parser == "custom_regex" }

  /** An artifact with its versions; an unknown parser is noticed at the first tag. */
  function Parsed(lib: Library, a: Artifact, tags: Tags): Result<Artifact, ()> {
    if |a.tags| > 0 && !KnownParser(tags) then Err(())
    else Ok(a.(versions := lib.versionSort(Recognised(lib, tags, a.tags))))
  }

  method ParseArtifact(lib: Library, a: Artifact, tags: Tags) returns (r: Result<Artifact, ()>)
    ensures r == Parsed(lib, a, tags)
  {
    var versions: seq<Version> := [];
    for i := 0 to |a.tags|
      invariant versions == Recognised(lib, tags, a.tags[..i])
      invariant i > 0 ==> KnownParser(tags)
    {
      if !KnownParser(tags) {
        return Err(());
      }
      var parsed := ParseTag(lib, tags, a.tags[i]);
      if parsed.Some? && PatternAllows(parsed.value, tags.patterns) {
        versions := versions + [parsed.value];
      }
      RecognisedStep(lib, tags, a.tags, i);
    }
    assert a.tags[..|a.tags|] == a.tags;
    r := Ok(a.(versions := lib.versionSort(versions)));
  }

  function ParseResults(lib: Library, arts: seq<Artifact>, tags: Tags): seq<Result<Artifact, ()>> {
    seq(|arts|, i requires 0 <= i < |arts| => Parsed(lib, arts[i], tags))
  }

  // Evaluations and their votes.

  /** The listing of each target of each policy, or none when discovery failed. */
  type Lister = (string, nat) -> Option<seq<Artifact>>

  datatype Evaluation = Evaluation(policy: string, rule: Rule, decisions: seq<Decision>)

  ghost function EvaluateTarget(lib: Library, name: string, p: PolicyConfig, rule: Rule, target: Target,
                                listing: Option<seq<Artifact>>, now: int): Result<Evaluation, PlanError>
    requires LibraryOk(lib)
  {
    match listing
    case None => Err(DiscoveryFailed(name, target.registry))
    case Some(arts) =>
      if arts == [] then Err(NothingDiscovered(name, target.registry))
      else
        match Sequence(ParseResults(lib, arts, p.tags))
        case Err(_) => Err(BadParser(name))
        case Ok(parsed) => Ok(Evaluation(name, rule, Decisions(lib.stableSort, parsed, rule, now)))
  }

  /** The values of some results, or the first error among them. */
  function Sequence<T, E>(rs: seq<Result<T, E>>): Result<seq<T>, E> {
    if |rs| == 0 then Ok([])
    else
      match Sequence(rs[..|rs| - 1])
      case Err(e) => Err(e)
      case Ok(init) =>
        match rs[|rs| - 1]
        case Err(e) => Err(e)
        case Ok(last) => Ok(init + [last])
  }

  lemma {:induction false} SequenceIff<T, E>(rs: seq<Result<T, E>>)
    ensures Sequence(rs).Ok? <==> forall i :: 0 <= i < |rs| ==> rs[i].Ok?
    ensures Sequence(rs).Ok? ==>
              |Sequence(rs).value| == |rs| && forall i :: 0 <= i < |rs| ==> rs[i] == Ok(Sequence(rs).value[i])
  {
    if |rs| > 0 {
      var init := rs[..|rs| - 1];
      SequenceIff(init);
      assert forall i :: 0 <= i < |init| ==> init[i] == rs[i];
    }
  }

  lemma SequenceOf<T, E>(rs: seq<Result<T, E>>, values: seq<T>)
    requires |rs| == |values| && forall i :: 0 <= i < |rs| ==> rs[i] == Ok(values[i])
    ensures Sequence(rs) == Ok(values)
  {
    SequenceIff(rs);
    assert Sequence(rs).value == values;
  }

  lemma {:induction false} SequenceFails<T, E>(rs: seq<Result<T, E>>, n: nat)
    requires n < |rs| && Sequence(rs[..n]).Ok? && rs[n].Err?
    ensures Sequence(rs) == Err(rs[n].error)
  {
    var init := rs[..|rs| - 1];
    if n < |rs| - 1 {
      assert init[..n] == rs[..n];
      SequenceFails(init, n);
    }
  }

  /** Taking one more result into account. */
  lemma SequenceStep<T, E>(rs: seq<Result<T, E>>, n: nat, values: seq<T>)
    requires n < |rs| && Sequence(rs[..n]) == Ok(values)
    ensures rs[n].Ok? ==> Sequence(rs[..n + 1]) == Ok(values + [rs[n].value])
    ensures rs[n].Err? ==> Sequence(rs) == Err(rs[n].error)
  {
    assert rs[..n + 1][..n] == rs[..n];
    if rs[n].Err? { SequenceFails(rs, n); }
  }

  ghost function TargetResults(lib: Library, name: string, p: PolicyConfig, rule: Rule, lister: Lister, now: int)
    : seq<Result<Evaluation, PlanError>>
    requires LibraryOk(lib)
  {
    seq(|p.targets|, t requires 0 <= t < |p.targets| =>
      EvaluateTarget(lib, name, p, rule, p.targets[t], lister(name, t), now))
  }

  /** The evaluations of the targets of a policy; the first failure stops them. */
  ghost function EvaluatePolicy(lib: Library, name: string, p: PolicyConfig, rule: Rule, lister: Lister, now: int)
    : Result<seq<Evaluation>, PlanError>
    requires LibraryOk(lib)
  {
    Sequence(TargetResults(lib, name, p, rule, lister, now))
  }

  /** The evaluations of one policy, if its rule and all its targets can be evaluated. */
  ghost function PolicyResult(lib: Library, policies: map<string, PolicyConfig>, name: string, lister: Lister, now: int)
    : Result<seq<Evaluation>, PlanError>
    requires LibraryOk(lib) && name in policies
  {
    match RuleOf(lib, policies[name])
    case None => Err(BadRule(name))
    case Some(rule) => EvaluatePolicy(lib, name, policies[name], rule, lister, now)
  }

  /** The evaluations of some policies, in the order of their names. */
  ghost function EvaluateAll(lib: Library, policies: map<string, PolicyConfig>, names: seq<string>, lister: Lister,
                             now: int)
    : Result<seq<Evaluation>, PlanError>
    requires LibraryOk(lib) && forall i :: 0 <= i < |names| ==> names[i] in policies
  {
    if |names| == 0 then Ok([])
    else
      match EvaluateAll(lib, policies, names[..|names| - 1], lister, now)
      case Err(e) => Err(e)
      case Ok(init) =>
        match PolicyResult(lib, policies, names[|names| - 1], lister, now)
        case Err(e) => Err(e)
        case Ok(more) => Ok(init + more)
  }

  datatype Vote = Vote(key: string, delete: bool, action: Action)

  function VoteOf(policy: string, d: Decision): Vote {
    Vote(Key(d.artifact), d.delete, Action(policy, d.reasons, d.artifact))
  }

  function VotesOf(policy: string, ds: seq<Decision>): seq<Vote> {
    seq(|ds|, i requires 0 <= i < |ds| => VoteOf(policy, ds[i]))
  }

  function AllVotes(es: seq<Evaluation>): seq<Vote> {
    if |es| == 0 then [] else AllVotes(es[..|es| - 1]) + VotesOf(es[|es| - 1].policy, es[|es| - 1].decisions)
  }

  function SeenKeys(votes: seq<Vote>): set<string> { set i | 0 <= i < |votes| :: votes[i].key }

  function ProtectedKeys(votes: seq<Vote>): set<string> { set i | 0 <= i < |votes| && !votes[i].delete :: votes[i].key }

  /** The keys that were seen and that every evaluation which saw them votes to delete. */
  ghost function UnanimousKeys(votes: seq<Vote>): set<string> {
    set k | k in SeenKeys(votes) && (forall i :: 0 <= i < |votes| && votes[i].key == k ==> votes[i].delete)
  }

  /** The last vote on a key, in policy, target and listing order. */
  function LastVote(votes: seq<Vote>, k: string): Vote
    requires k in SeenKeys(votes)
  {
    var last := votes[|votes| - 1];
    if last.key == k then last
    else
      SeenEarlier(votes, k);
      LastVote(votes[..|votes| - 1], k)
  }

  lemma SeenEarlier(votes: seq<Vote>, k: string)
    requires k in SeenKeys(votes) && votes[|votes| - 1].key != k
    ensures k in SeenKeys(votes[..|votes| - 1])
  {
    var i :| 0 <= i < |votes| && votes[i].key == k;
    assert votes[..|votes| - 1][i] == votes[i];
  }

  /** What the plan deletes: a declarative vote. */
  ghost function Agreed(votes: seq<Vote>): map<string, Action> {
    map k | k in UnanimousKeys(votes) :: LastVote(votes, k).action
  }

  // Safety limits.

  datatype Scope = Everything | Repository(name: string)

  predicate InScope(a: Artifact, scope: Scope) { scope.Everything? || a.repository == scope.name }

  function Total(ds: seq<Decision>, scope: Scope): nat {
    if |ds| == 0 then 0
    else Total(ds[..|ds| - 1], scope) + (if InScope(ds[|ds| - 1].artifact, scope) then 1 else 0)
  }

  function Deleted(ds: seq<Decision>, scope: Scope): nat {
    if |ds| == 0 then 0
    else Deleted(ds[..|ds| - 1], scope)
         + (if ds[|ds| - 1].delete && InScope(ds[|ds| - 1].artifact, scope) then 1 else 0)
  }

  /** `math.Round`: half away from zero. */
  function Round(x: real): int {
    if x >= 0.0 then (x + 0.5).Floor else -((-x + 0.5).Floor)
  }

  /** A percentage rounded to two decimals. */
  function Percent(part: nat, total: nat): real {
    if total == 0 then 0.0 else Round(part as real * 10000.0 / total as real) as real / 100.0
  }

  predicate Admits(rule: Rule, deletes: nat, total: nat) {
    deletes <= rule.maxDeleteCount && Percent(deletes, total) <= rule.maxDeletePercent
  }

  /** The limits of the rule hold for the whole listing and for every repository in it. */
  ghost predicate WithinLimits(e: Evaluation) {
    forall scope :: Admits(e.rule, Deleted(e.decisions, scope), Total(e.decisions, scope))
  }

  ghost predicate AllWithinLimits(es: seq<Evaluation>) {
    forall i :: 0 <= i < |es| ==> WithinLimits(es[i])
  }

  /** The policy of the first evaluation that breaks its limits. */
  ghost function FirstOffender(es: seq<Evaluation>): string
    requires !AllWithinLimits(es)
  {
    if !WithinLimits(es[0]) then es[0].policy else FirstOffender(es[1..])
  }

  // The plan.

  ghost function InKeyOrder(actions: map<string, Action>): seq<Action> {
    var names := Enumeration(actions.Keys);
    seq(|names|, i requires 0 <= i < |names| => assert names[i] in names; actions[names[i]])
  }

  /** The plan some votes make. */
  ghost function PlanFrom(votes: seq<Vote>, fingerprint: string, now: int): Plan {
    Plan(FORMAT_VERSION, now, now + HOUR, fingerprint, InKeyOrder(Agreed(votes)),
         |SeenKeys(votes)|, |ProtectedKeys(votes)|)
  }

  ghost function Conclude(es: seq<Evaluation>, fingerprint: string, now: int): Result<Plan, PlanError> {
    if !AllWithinLimits(es) then Err(LimitExceeded(FirstOffender(es)))
    else Ok(PlanFrom(AllVotes(es), fingerprint, now))
  }

  /** Every evaluation of a planning run, in sorted-policy and then target order. */
  ghost function Evaluations(lib: Library, policies: map<string, PolicyConfig>, lister: Lister, now: int)
    : Result<seq<Evaluation>, PlanError>
    requires LibraryOk(lib)
  {
    var names := Enumeration(policies.Keys);
    assert forall i :: 0 <= i < |names| ==> names[i] in names;
    EvaluateAll(lib, policies, names, lister, now)
  }

  ghost function PlanOf(lib: Library, policies: map<string, PolicyConfig>, fingerprint: string, lister: Lister,
                        now: int)
    : Result<Plan, PlanError>
    requires LibraryOk(lib)
  {
    match Evaluations(lib, policies, lister, now)
    case Err(e) => Err(e)
    case Ok(es) => Conclude(es, fingerprint, now)
  }
}
