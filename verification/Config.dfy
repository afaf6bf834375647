/** The configuration records the planner reads, the rule each policy turns into, and the library calls
    (regular expressions and sorting) the model is parametric in. */
module Config {
  import opened Artifacts
  import opened Orders
  import opened Policy

  datatype Target = Target(registry: string, includes: seq<string>, excludes: seq<string>)

  datatype Tags = Tags(parser: string, patterns: seq<string>, regex: string)

  datatype PolicyConfig = PolicyConfig(
    targets: seq<Target>,
    tags: Tags,
    keepNewerThan: int,
    deleteOlderThan: int,
    keepLatest: int,
    keepAtLeast: int,
    groupBy: string,
    protectTags: seq<string>,
    tagPatterns: seq<string>,
    digests: seq<string>,
    unparsedTags: Option<bool>,
    maxDeleteCount: int,
    maxDeletePercent: real,
    requireTagged: Option<bool>)

  /** `regexp.Compile` with `MatchString`, the named captures of an expression and of a match, and
      `sort.SliceStable` and `sort.Slice` at their two uses. */
  datatype Library = Library(
    compile: string -> Option<string -> bool>,
    captureNames: string -> Option<seq<string>>,
    captures: (string, string) -> Option<map<string, string>>,
    stableSort: Sorter,
    versionSort: seq<Version> -> seq<Version>)

  predicate LaterVersion(a: Version, b: Version) {
    a.date > b.date || (a.date == b.date && a.sequence > b.sequence)
  }

  /** What the two sorts promise. */
  ghost predicate LibraryOk(lib: Library) {
    && StableSorter(lib.stableSort)
    && forall vs :: var sorted := lib.versionSort(vs);
         Permutation(sorted, vs) && forall i, j :: 0 <= i < j < |sorted| ==> !LaterVersion(sorted[j], sorted[i])
  }

  /** An anchored expression that compiles and captures the four calendar fields. */
  predicate ValidRegexParser(lib: Library, expression: string) {
    expression != "" && expression[0] == '^' && expression[|expression| - 1] == '$'
    && match lib.captureNames(expression)
       case None => false
       case Some(names) => "year" in names && "month" in names && "day" in names && "sequence" in names
  }

  /** A clause of `Validate` that a policy breaks. */
  datatype Fault =
    | NoTargets | StrayRegex | UnsupportedPattern(pattern: string) | InvalidRegex | UnknownParser
    | DeleteOlderThan | KeepNewerThan | KeepAtLeast | KeepLatest | GroupBy | DeleteCount | DeletePercent
    | UnknownRegistry(registry: string) | InvalidTagPattern(expression: string)

  predicate Breaks(lib: Library, registries: set<string>, p: PolicyConfig, fault: Fault) {
    match fault
    case NoTargets => p.targets == []
    case StrayRegex => p.tags.parser == "calendar" && p.tags.regex != ""
    case UnsupportedPattern(pattern) =>
      p.tags.parser == "calendar" && pattern in p.tags.patterns && pattern !in {"vYYYY.MM.DD.x", "vYYYY.MM.DD.x-{app}"}
    case InvalidRegex => p.tags.parser == "custom_regex" && !ValidRegexParser(lib, p.tags.regex)
    case UnknownParser => p.tags.parser !in {"calendar", "custom_regex"}
    case DeleteOlderThan => p.deleteOlderThan <= 0
    case KeepNewerThan => p.keepNewerThan > p.deleteOlderThan
    case KeepAtLeast => p.keepAtLeast < 1
    case KeepLatest => p.keepLatest < 0
    case GroupBy => p.groupBy !in {"", "app"}
    case DeleteCount => p.maxDeleteCount <= 0
    case DeletePercent => p.maxDeletePercent <= 0.0 || p.maxDeletePercent > 100.0
    case UnknownRegistry(registry) =>
      registry !in registries && exists i :: 0 <= i < |p.targets| && p.targets[i].registry == registry
    case InvalidTagPattern(expression) => expression in p.tagPatterns && lib.compile(expression).None?
  }

  /** The policies of a validated configuration. */
  ghost predicate Validated(lib: Library, registries: set<string>, policies: map<string, PolicyConfig>) {
    forall name, fault :: name in policies ==> !Breaks(lib, registries, policies[name], fault)
  }

  function Report(faults: seq<Fault>, broken: bool, fault: Fault): (r: seq<Fault>)
    ensures forall f :: f in r <==> f in faults || (broken && f == fault)
  {
    if broken then faults + [fault] else faults
  }

  /** Every policy fault of a configuration is reported, and nothing else. */
  method Validate(lib: Library, registries: set<string>, policies: map<string, PolicyConfig>)
    returns (errs: seq<(string, Fault)>)
    ensures forall name, fault ::
              (name, fault) in errs <==> name in policies && Breaks(lib, registries, policies[name], fault)
    ensures errs == [] <==> Validated(lib, registries, policies)
  {
    errs := [];
    var todo := policies.Keys;
    while todo != {}
      invariant todo <= policies.Keys
      invariant forall name, fault :: (name, fault) in errs <==>
                  name in policies.Keys - todo && Breaks(lib, registries, policies[name], fault)
      decreases todo
    {
      var name :| name in todo;
      var faults := ValidatePolicy(lib, registries, policies[name]);
      var named := seq(|faults|, i requires 0 <= i < |faults| => (name, faults[i]));
      NamedFaults(name, faults, named);
      errs := errs + named;
      todo := todo - {name};
    }
    if errs != [] {
      var (name, fault) := errs[0];
      assert (name, fault) in errs;
    }
  }

  lemma NamedFaults(name: string, faults: seq<Fault>, named: seq<(string, Fault)>)
    requires |named| == |faults| && forall i :: 0 <= i < |faults| ==> named[i] == (name, faults[i])
    ensures forall n, f :: (n, f) in named <==> n == name && f in faults
  {
    forall f | f in faults ensures (name, f) in named {
      var i :| 0 <= i < |faults| && faults[i] == f;
      assert named[i] == (name, f);
    }
  }

  method ValidatePolicy(lib: Library, registries: set<string>, p: PolicyConfig) returns (faults: seq<Fault>)
    ensures forall f :: f in faults <==> Breaks(lib, registries, p, f)
  {
    var tags := ValidateTags(lib, registries, p);
    var retention := ValidateRetention(lib, registries, p);
    var limits := ValidateLimits(lib, registries, p);
    var names := ValidateNames(lib, registries, p);
    faults := tags + retention + limits + names;
  }

  predicate OfTags(f: Fault) { f.StrayRegex? || f.UnsupportedPattern? || f.InvalidRegex? || f.UnknownParser? }

  predicate OfRetention(f: Fault) { f.DeleteOlderThan? || f.KeepNewerThan? || f.KeepAtLeast? || f.KeepLatest? }

  predicate OfNames(f: Fault) { f.UnknownRegistry? || f.InvalidTagPattern? }

  method ValidateTags(lib: Library, registries: set<string>, p: PolicyConfig) returns (faults: seq<Fault>)
    ensures forall f :: f in faults <==> OfTags(f) && Breaks(lib, registries, p, f)
  {
    faults := [];
    if p.tags.parser == "calendar" {
      faults := Report(faults, p.tags.regex != "", StrayRegex);
      for i := 0 to |p.tags.patterns|
        invariant forall f :: f in faults <==>
                    || (f == StrayRegex && p.tags.regex != "")
                    || (f.UnsupportedPattern? && f.pattern in p.tags.patterns[..i]
                        && f.pattern !in {"vYYYY.MM.DD.x", "vYYYY.MM.DD.x-{app}"})
      {
        var pattern := p.tags.patterns[i];
        assert p.tags.patterns[..i + 1] == p.tags.patterns[..i] + [pattern];
        faults := Report(faults, pattern != "vYYYY.MM.DD.x" && pattern != "vYYYY.MM.DD.x-{app}",
                         UnsupportedPattern(pattern));
      }
      assert p.tags.patterns[..|p.tags.patterns|] == p.tags.patterns;
    } else if p.tags.parser == "custom_regex" {
      faults := Report(faults, !ValidRegexParser(lib, p.tags.regex), InvalidRegex);
    } else {
      faults := Report(faults, true, UnknownParser);
    }
  }

  method ValidateRetention(lib: Library, registries: set<string>, p: PolicyConfig) returns (faults: seq<Fault>)
    ensures forall f :: f in faults <==> OfRetention(f) && Breaks(lib, registries, p, f)
  {
    faults := Report([], p.deleteOlderThan <= 0, DeleteOlderThan);
    faults := Report(faults, p.keepNewerThan > p.deleteOlderThan, KeepNewerThan);
    faults := Report(faults, p.keepAtLeast < 1, KeepAtLeast);
    faults := Report(faults, p.keepLatest < 0, KeepLatest);
  }

  method ValidateLimits(lib: Library, registries: set<string>, p: PolicyConfig) returns (faults: seq<Fault>)
    ensures forall f :: f in faults <==> !OfTags(f) && !OfNames(f) && !OfRetention(f) && Breaks(lib, registries, p, f)
  {
    faults := Report([], |p.targets| == 0, NoTargets);
    faults := Report(faults, p.groupBy != "" && p.groupBy != "app", GroupBy);
    faults := Report(faults, p.maxDeleteCount <= 0, DeleteCount);
    faults := Report(faults, p.maxDeletePercent <= 0.0 || p.maxDeletePercent > 100.0, DeletePercent);
  }

  method ValidateNames(lib: Library, registries: set<string>, p: PolicyConfig) returns (faults: seq<Fault>)
    ensures forall f :: f in faults <==> OfNames(f) && Breaks(lib, registries, p, f)
  {
    faults := [];
    for i := 0 to |p.targets|
      invariant forall f :: f in faults <==>
                  f.UnknownRegistry? && f.registry !in registries
                  && exists j :: 0 <= j < i && p.targets[j].registry == f.registry
    {
      faults := Report(faults, p.targets[i].registry !in registries, UnknownRegistry(p.targets[i].registry));
    }
    for i := 0 to |p.tagPatterns|
      invariant forall f :: f in faults <==>
                  || (f.UnknownRegistry? && Breaks(lib, registries, p, f))
                  || (f.InvalidTagPattern? && f.expression in p.tagPatterns[..i] && lib.compile(f.expression).None?)
    {
      var expression := p.tagPatterns[i];
      assert p.tagPatterns[..i + 1] == p.tagPatterns[..i] + [expression];
      faults := Report(faults, lib.compile(expression).None?, InvalidTagPattern(expression));
    }
    assert p.tagPatterns[..|p.tagPatterns|] == p.tagPatterns;
  }

  function CompileAll(lib: Library, expressions: seq<string>): (r: Option<seq<string -> bool>>)
    ensures r.Some? <==> forall i :: 0 <= i < |expressions| ==> lib.compile(expressions[i]).Some?
    ensures r.Some? ==> |r.value| == |expressions|
                        && forall i :: 0 <= i < |expressions| ==> lib.compile(expressions[i]) == Some(r.value[i])
  {
    if |expressions| == 0 then Some([])
    else
      match CompileAll(lib, expressions[..|expressions| - 1])
      case None => None
      case Some(init) =>
        match lib.compile(expressions[|expressions| - 1])
        case None => None
        case Some(last) => Some(init + [last])
  }

  function OrDefault(b: Option<bool>, default: bool): bool {
    if b.Some? then b.value else default
  }

  function RuleWith(p: PolicyConfig, patterns: seq<string -> bool>): Rule {
    Rule(p.keepNewerThan, p.deleteOlderThan, p.keepLatest, p.keepAtLeast, p.groupBy == "app",
         p.protectTags, patterns, Elements(p.digests), OrDefault(p.unparsedTags, true),
         OrDefault(p.requireTagged, true), p.maxDeleteCount, p.maxDeletePercent)
  }

  /** The rule of a policy, or none when a protected tag pattern does not compile. */
  function RuleOf(lib: Library, p: PolicyConfig): Option<Rule> {
    match CompileAll(lib, p.tagPatterns)
    case None => None
    case Some(patterns) => Some(RuleWith(p, patterns))
  }

  /** Compile the protected patterns one by one. */
  method CompilePatterns(lib: Library, expressions: seq<string>) returns (r: Option<seq<string -> bool>>)
    ensures r == CompileAll(lib, expressions)
  {
    var patterns: seq<string -> bool> := [];
    for i := 0 to |expressions|
      invariant CompileAll(lib, expressions[..i]) == Some(patterns)
    {
      var compiled := lib.compile(expressions[i]);
      assert expressions[..i + 1][..i] == expressions[..i];
      if compiled.None? {
        return None;
      }
      patterns := patterns + [compiled.value];
    }
    assert expressions[..|expressions|] == expressions;
    r := Some(patterns);
  }

  method DigestSet(digests: seq<string>) returns (r: set<string>)
    ensures forall d :: d in r <==> d in digests
  {
    r := {};
    for i := 0 to |digests|
      invariant forall d :: d in r <==> d in digests[..i]
    {
      assert digests[..i + 1] == digests[..i] + [digests[i]];
      r := r + {digests[i]};
    }
    assert digests[..|digests|] == digests;
  }

  /** Every field of the rule is the setting it is named after: absent switches are on, and the protected patterns
      are compiled one by one. */
  ghost predicate Carries(lib: Library, p: PolicyConfig, rule: Rule) {
    && rule.keepNewerThan == p.keepNewerThan && rule.deleteOlderThan == p.deleteOlderThan
    && rule.keepLatest == p.keepLatest && rule.keepAtLeast == p.keepAtLeast
    && rule.maxDeleteCount == p.maxDeleteCount && rule.maxDeletePercent == p.maxDeletePercent
    && (rule.groupByApp <==> p.groupBy == "app")
    && (rule.protectUnparsed <==> p.unparsedTags != Some(false))
    && (rule.requireTagged <==> p.requireTagged != Some(false))
    && rule.protectedTags == p.protectTags
    && (forall d :: d in rule.protectedDigests <==> d in p.digests)
    && |rule.protectedPatterns| == |p.tagPatterns|
    && forall i :: 0 <= i < |p.tagPatterns| ==> lib.compile(p.tagPatterns[i]) == Some(rule.protectedPatterns[i])
  }

  /** `Rule`: it exists exactly when every protected pattern compiles, and carries the settings of the policy. */
  method BuildRule(lib: Library, p: PolicyConfig) returns (r: Option<Rule>)
    ensures r == RuleOf(lib, p)
    ensures r.Some? <==> forall i :: 0 <= i < |p.tagPatterns| ==> lib.compile(p.tagPatterns[i]).Some?
    ensures r.Some? ==> Carries(lib, p, r.value)
  {
    var patterns := CompilePatterns(lib, p.tagPatterns);
    if patterns.None? {
      return None;
    }
    var digests := DigestSet(p.digests);
    assert digests == Elements(p.digests);
    var unparsed, tagged := true, true;
    if p.unparsedTags.Some? { unparsed := p.unparsedTags.value; }
    if p.requireTagged.Some? { tagged := p.requireTagged.value; }
    r := Some(Rule(p.keepNewerThan, p.deleteOlderThan, p.keepLatest, p.keepAtLeast, p.groupBy == "app",
                   p.protectTags, patterns.value, digests, unparsed, tagged, p.maxDeleteCount, p.maxDeletePercent));
    RuleCarries(lib, p);
  }

  lemma RuleCarries(lib: Library, p: PolicyConfig)
    ensures RuleOf(lib, p).Some? <==> forall i :: 0 <= i < |p.tagPatterns| ==> lib.compile(p.tagPatterns[i]).Some?
    ensures RuleOf(lib, p).Some? ==> Carries(lib, p, RuleOf(lib, p).value)
  {
  }

  /** The two accepted patterns of calendar tags. */
  predicate KnownPattern(pattern: string) { pattern == "vYYYY.MM.DD.x" || pattern == "vYYYY.MM.DD.x-{app}" }

  /** The tag settings of a policy are ones it can be run with. */
  ghost predicate SoundTags(lib: Library, tags: Tags) {
    || (&& tags.parser == "calendar" && tags.regex == ""
        && forall pattern :: pattern in tags.patterns ==> KnownPattern(pattern))
    || (&& tags.parser == "custom_regex" && tags.regex != ""
        && tags.regex[0] == '^' && tags.regex[|tags.regex| - 1] == '$' && lib.captureNames(tags.regex).Some?
        && forall name :: name in {"year", "month", "day", "sequence"} ==> name in lib.captureNames(tags.regex).value)
  }

  /** What validation demands of every policy. */
  ghost predicate Sound(lib: Library, registries: set<string>, p: PolicyConfig) {
    && p.targets != [] && (forall target :: target in p.targets ==> target.registry in registries)
    && SoundTags(lib, p.tags)
    && 0 < p.deleteOlderThan && p.keepNewerThan <= p.deleteOlderThan && 1 <= p.keepAtLeast && 0 <= p.keepLatest
    && (p.groupBy == "" || p.groupBy == "app")
    && 0 < p.maxDeleteCount && 0.0 < p.maxDeletePercent <= 100.0
    && forall expression :: expression in p.tagPatterns ==> lib.compile(expression).Some?
  }

  /** A configuration is validated exactly when all its policies are sound. */
  lemma ValidatedIff(lib: Library, registries: set<string>, policies: map<string, PolicyConfig>)
    ensures Validated(lib, registries, policies)
            <==> forall name :: name in policies ==> Sound(lib, registries, policies[name])
  {
    forall name | name in policies
      ensures Sound(lib, registries, policies[name])
              <==> forall fault :: !Breaks(lib, registries, policies[name], fault)
    {
      SoundIff(lib, registries, policies[name]);
    }
  }

  lemma SoundIff(lib: Library, registries: set<string>, p: PolicyConfig)
    ensures Sound(lib, registries, p) <==> forall fault :: !Breaks(lib, registries, p, fault)
  {
    if Sound(lib, registries, p) {
      forall fault ensures !Breaks(lib, registries, p, fault) {
        SoundBreaksNothing(lib, registries, p, fault);
      }
    }
    if forall fault :: !Breaks(lib, registries, p, fault) {
      UnbrokenTags(lib, registries, p);
      UnbrokenNames(lib, registries, p);
      assert !Breaks(lib, registries, p, NoTargets) && !Breaks(lib, registries, p, GroupBy);
      assert !Breaks(lib, registries, p, DeleteOlderThan) && !Breaks(lib, registries, p, KeepNewerThan);
      assert !Breaks(lib, registries, p, KeepAtLeast) && !Breaks(lib, registries, p, KeepLatest);
      assert !Breaks(lib, registries, p, DeleteCount) && !Breaks(lib, registries, p, DeletePercent);
    }
  }

  lemma SoundBreaksNothing(lib: Library, registries: set<string>, p: PolicyConfig, fault: Fault)
    requires Sound(lib, registries, p)
    ensures !Breaks(lib, registries, p, fault)
  {
    forall i | 0 <= i < |p.targets| ensures p.targets[i].registry in registries {
      assert p.targets[i] in p.targets;
    }
  }

  lemma UnbrokenTags(lib: Library, registries: set<string>, p: PolicyConfig)
    requires forall fault :: !Breaks(lib, registries, p, fault)
    ensures SoundTags(lib, p.tags)
  {
    assert !Breaks(lib, registries, p, UnknownParser) && !Breaks(lib, registries, p, StrayRegex);
    assert !Breaks(lib, registries, p, InvalidRegex);
    forall pattern | p.tags.parser == "calendar" && pattern in p.tags.patterns ensures KnownPattern(pattern) {
      assert !Breaks(lib, registries, p, UnsupportedPattern(pattern));
    }
  }

  lemma UnbrokenNames(lib: Library, registries: set<string>, p: PolicyConfig)
    requires forall fault :: !Breaks(lib, registries, p, fault)
    ensures forall target :: target in p.targets ==> target.registry in registries
    ensures forall expression :: expression in p.tagPatterns ==> lib.compile(expression).Some?
  {
    forall target | target in p.targets ensures target.registry in registries {
      var i :| 0 <= i < |p.targets| && p.targets[i] == target;
      assert !Breaks(lib, registries, p, UnknownRegistry(target.registry));
    }
    forall expression | expression in p.tagPatterns ensures lib.compile(expression).Some? {
      assert !Breaks(lib, registries, p, InvalidTagPattern(expression));
    }
  }
}
