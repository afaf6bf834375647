# Regbot: planning, applying and parsing, verified

Regbot decides which container artifacts of a registry are old enough to delete, writes that decision down as a
plan, and carries the plan out with concurrent workers. Most of what it promises is true only of several functions
together: retention limits have to survive the merging of many policies, a plan that was half carried out has to be
resumable, and a concurrent run has to end with the same books as a sequential one. This project models those parts
and proves the promises, in Dafny 4.11. `dafny verify dfyconfig.toml` verifies everything.

| module | subject |
|---|---|
| `Orders`, `Artifacts` | string order, permutations, sorting; the artifact record, saturating durations, artifact keys |
| `Gregorian`, `Calendar` | day arithmetic of `time.Date`; the calendar tag parser, its printer, and their round trips |
| `Config` | configuration records, validation clauses, the rule of a policy, the library calls taken as parameters |
| `Policy`, `Retention`, `Coherence` | the evaluator and its specification; what evaluation promises; exactly when its decisions survive removals |
| `Ranking` | ranks, decisions and reasons in terms of dates, sequences, tags, IDs, protections and ages |
| `StableSort` | sorts that satisfy the hypotheses |
| `Engine`, `Planner` | the declarative plan; `Plan` as it runs, over maps that are overwritten and swept, proved equal to it |
| `Recognition` | which tags are recognised as which versions, by the calendar parser and by custom expressions |
| `Listings`, `Promises`, `Failures` | the plan in terms of the listings and the configuration: whose action it is, exactly what is planned, exactly when planning fails and how |
| `Planning`, `Limits`, `PerTarget`, `Convergence`, `Mixed` | what a plan promises: the vote, conservation, retention, bounds, resumability, and where it ends |
| `Apply`, `Ledger`, `Schedules`, `EndToEnd` | the worker protocol as a transition system; what its report says of every answer; when its outcome is independent of the schedule; plan, apply and plan again |
| `Scheduler`, `Oci`, `Github`, `Server` | schedule accounting, tag indexing, deletion preconditions, run exclusion |

How the pieces are modelled:

- Code that changes state step by step is a method or a class over `seq`, `map` and `set` variables, proved against
  a specification function (`Policy.Evaluate` against `Policy.Decisions`, `Planner.Plan` against `Engine.PlanOf`).
  The theorems are about the specification functions. What those functions mean is in turn proved without them:
  `Ranking` for the evaluator, `Recognition` for the parsers, `Config.Carries` and `Config.ValidatedIff` for the
  configuration, `Listings`, `Promises` and `Failures` for the plan, `Ledger` for the run.
- `Apply` and the `POST /run` handler are labelled transition systems: a run is any sequence of enabled steps, so a
  theorem about runs is a theorem about every interleaving.
- Instants and durations are integers of nanoseconds with the saturation of `time.Time.Sub`; percentages are exact
  rationals rounded half away from zero to two decimals.

What is taken as given, always as an explicit hypothesis or parameter:

- `Config.Library` holds the regular expressions and the two sorts. `LibraryOk` asks of them only what their
  documentation says: `sort.SliceStable` permutes, and it sorts stably where the comparison is a strict weak order;
  `sort.Slice` permutes and sorts. Nothing is assumed about groups on which the comparison is inconsistent.
  `StableSort.LibraryExists` shows both can be met.
- `Engine.Lister` is what the providers answer to `List`, fixed for the duration of one planning run.
- `Scheduler.Least` says the schedule's next occurrence is the first one later than the time asked about. The
  statements about the scheduler loop assume it; the counting of skipped occurrences does not (see below).

Where the code and its documentation, or a natural reading of it, disagree, the code is what is modelled:

- The comparison that sorts a group is not transitive on groups mixing parsed and unparsed artifacts. On such groups
  carrying out part of a plan can turn a kept artifact into a deleted one: `Mixed.MixedGroupsDoNotSettle` is a
  validated policy and a listing of three tagged artifacts on which it happens at the level of whole plans.
  `Coherence.CoherentIff` gives the exact condition on a listing, `Coherence.SettlesIff` shows that decisions on a
  listing survive removals exactly under it, and `Convergence.Resumable` assumes it. Minimum retention needs no such
  condition.
- `docs/security.md:12` speaks of per-policy limits. The code records limits once per policy and target. A policy
  keeps its own max_delete_count in every plan exactly when it has one target (`PerTarget.AlwaysKeptIff`); with
  several, its actions are bounded by the number of targets times the count (`Limits.PolicyIsBounded`), and that
  bound is reached (`PerTarget.PolicyBoundIsTight`). The percentage, in contrast, does hold over all targets of a
  policy together (`Limits.PolicyShareIsBounded`).
- Percentages are rounded before they are compared, so a share slightly above its limit passes
  (`Limits.RoundingAdmitsAnExcess`; `Limits.PercentPassesIff` is the exact threshold).
- No error from `Apply` does not mean that everything was done: whatever the plan and the concurrency, a caller that
  cancels early gets no error and nothing attempted (`Apply.NilWithNothingDone`). For a plan that is not empty it
  means so exactly when the caller does not cancel (`Apply.NilSettlesIff`), and it can be told from the result by
  the number of outcomes (`Apply.NilMeansDoneIff`).
- A missing provider or a failed precondition cancels the run, and then the feeder may still choose to send: which
  actions are attempted depends on the schedule, exactly when it is not the last action that cancels
  (`Schedules.IndependentIff`).
- The loop that counts skipped occurrences need not stop: a cron expression such as 30 February is accepted, the
  schedule then answers with the zero time, and the loop never gets past it (`Scheduler.NothingToFind`). For a
  schedule that answers the zero time when its search fails, the loop stops exactly when the search succeeds from the
  start and from every occurrence up to the finish (`Scheduler.SearchStopsIff`), and for a monotone schedule exactly
  when it moves forward from every time in between (`Scheduler.StopsIff`).
- A custom tag expression may capture text with a dash, which the calendar parser it is handed on to takes for the
  start of the app: a captured sequence `1-x` becomes sequence 1 of app `x` (`Recognition.DashMovesToTheApp`). The
  version is the one its captures spell exactly when none of year, month, day and sequence contains a dash
  (`Recognition.RegexFieldsIff`).
- The tag parser accepts plus signs in the date and leading zeros in the sequence. Printing a parsed tag therefore
  need not give the tag back; `Calendar.NormalFormIsExact` says when it does, and `Calendar.ParsedIff` what is accepted.

## Model

| member | source | states |
|---|---|---|
| Gregorian.CivilRoundTrip | pkg/policy/policy.go:86-89 | every day number, of any year, denotes a real Gregorian date and is the number of that date |
| Gregorian.DayNumberRoundTrip | pkg/policy/policy.go:86-89 | reading back the date of a real date's day number returns that date |
| Gregorian.DayNumberAscends | pkg/policy/policy.go:275-277 | comparing instants of dates is comparing year, month and day lexicographically |
| Gregorian.NormaliseAndCompareIsExact | pkg/policy/policy.go:86-89 | for all integers year, month and day, normalising with `time.Date` and comparing accepts exactly the real dates |
| Gregorian.NewYear | pkg/policy/policy.go:86-89 | the days up to a New Year's day are 365 for every year and one for every leap year before it, counted from year 0 |
| Calendar.PrintThenParse | pkg/policy/policy.go:60-101 | for every real date of years 0 to 9999, every 64-bit sequence and every absent or legal app, parsing the printed tag returns exactly those fields |
| Calendar.ParseThenPrint | pkg/policy/policy.go:60-101 | printing any accepted tag gives a normal form that parses to the same date, sequence and app |
| Calendar.NormalFormIsExact | pkg/policy/policy.go:70-85 | an accepted tag equals its normal form if and only if it holds no plus sign and its sequence has no leading zero |
| Calendar.Accepted | pkg/policy/policy.go:60-101 | an accepted tag is `v`, four dot-separated fields naming a real date of years 0 to 9999 and a 64-bit sequence, and an optional legal app after the first dash |
| Calendar.ParsedIff | pkg/policy/policy.go:60-101 | a tag is accepted if and only if it spells a version: `v`, a year of four, a month and a day of two characters, each digits after an optional plus sign and a real date together, any number of sequence digits with a value below 2^64, and an optional dash and legal app; the version returned is the one spelled |
| Calendar.AppAlphabet | pkg/policy/policy.go:94-98 | apps are written with lower-case letters, digits, underscore, dot and dash |
| Calendar.InstantsOf | pkg/policy/policy.go:86-100 | the instants of successive days are 24 hours apart, and the zero time is the first day of year 1 |
| Config.Validate | internal/config/config.go:170-222 | the reported faults are exactly the policy clauses that are broken, each under its policy; there are none if and only if the policies are valid |
| Config.ValidatePolicy | internal/config/config.go:171-221 | a fault is reported for one policy if and only if the policy breaks that clause |
| Config.ValidatedIff | internal/config/config.go:170-222 | policies are valid if and only if each has targets with known registries, sound tag settings, compiling patterns, ordered ages, positive counts, a percentage above 0 and at most 100 and a known grouping, every clause written out |
| Config.BuildRule | internal/config/config.go:244-275 | the rule exists if and only if every protected pattern compiles; unparsed and untagged artifacts are protected unless the switch says false, and every other field is the setting it is named after, the patterns compiled in order and the digests as a set |
| Policy.DeletesIff | pkg/policy/policy.go:181-228 | an artifact is deleted if and only if deletion is configured and none of the protections applies to it; then its age has reached the limit |
| Policy.HasMultipleApps | pkg/policy/policy.go:234-244 | the counting map finds several apps if and only if two versions name different apps, a missing app counting as the default group |
| Policy.JudgeArtifact | pkg/policy/policy.go:181-228 | the sequence of checks yields the decision, reasons in order, that the artifact's protections at that rank call for |
| Policy.GroupArtifacts | pkg/policy/policy.go:160-172 | every artifact gets its group and every group the ascending indices of its members |
| Policy.Evaluate | pkg/policy/policy.go:159-232 | whatever order the groups are visited in, every artifact gets the decision its rank in its sorted group calls for; ranks and decisions are what the `Ranking` lemmas say |
| Ranking.SameGroupIff | pkg/policy/policy.go:160-172 | two artifacts share a group if and only if grouping is off or their newest recognised tags name the same app, none and `_default` being the same |
| Ranking.RanksFollow | pkg/policy/policy.go:272-286 | in a group of parsed artifacts one ranks before another if and only if it has the later date, or then the greater sequence, then the greater tag, then the greater ID, then the earlier position; in a group of unparsed ones by ID and position |
| Ranking.RankIsTheNumberAhead | pkg/policy/policy.go:174-178 | in such a group the rank of an artifact is the number of artifacts ahead of it in that order |
| Artifacts.SubIsNearest | pkg/policy/policy.go:262-270 | an age is the 64-bit duration nearest to the exact difference |
| Ranking.DeletedIff | pkg/policy/policy.go:181-270 | an artifact is deleted if and only if deletion is configured, no protection of tags, digest, referrers or several apps applies, its rank is past both counts, and its age, counted from the newest recognised tag or else the last update or else the creation, has reached both limits |
| Ranking.DeletedHasMatesAhead | pkg/policy/policy.go:174-218 | in such a group a deleted artifact has at least keep_latest and at least keep_at_least mates ahead of it, so of equal dates the greater sequence is kept |
| Ranking.ReasonsMean | pkg/policy/policy.go:181-228 | every reason is recorded if and only if what it names is true of the artifact, its age and its rank |
| Ranking.ReasonsInTurn | pkg/policy/policy.go:181-228 | reasons come in a fixed order, once each except that an artifact can be unparsed twice; a decision deletes if and only if its reasons are just that it is old |
| Retention.MinimumIsKept | pkg/policy/policy.go:174-218 | every group keeps at least the smaller of its size and the larger of keep_latest and keep_at_least, for any permutation the sort produces |
| Retention.DeletionIsMonotone | pkg/policy/policy.go:178-229 | raising any retention setting or adding protections, or moving the clock back, deletes nothing that the laxer rule at the later clock keeps |
| Retention.ListingOrderIsIrrelevant | pkg/policy/policy.go:172-218 | without ties, permuting a listing only permutes its decisions, reasons included |
| Retention.NewerMates | pkg/policy/policy.go:211-218 | without ties, a deleted artifact has at least the reserve of strictly newer artifacts in its own group |
| Retention.SortThenRemove | pkg/policy/policy.go:175-177 | sorting the survivors of a removal is filtering the sorted group |
| Retention.RankAfterRemoval | pkg/policy/policy.go:174-178 | when the first ranks of every group survive a removal, each survivor keeps its rank below the reserve and stays beyond it otherwise |
| Retention.DecisionsSurviveRemoval | pkg/policy/policy.go:159-232 | removing any artifacts voted for deletion leaves every other decision, with its reasons and group, as it was |
| Coherence.CoherentIff | pkg/policy/policy.go:272-286 | the comparison is consistent on a listing if and only if no group has an unparsed artifact whose ID lies between those of two parsed ones that their versions order the other way |
| Coherence.PureGroupsAreCoherent | pkg/policy/policy.go:272-286 | the comparison is consistent when every group is all parsed or all unparsed |
| Coherence.SettlesIff | pkg/policy/policy.go:159-232 | on a listing of distinct artifacts without ties that only the rule can protect, decisions survive every removal of voted-out artifacts, under every rule with that grouping and every clock, if and only if the comparison is consistent on the listing |
| Coherence.EveryPartSettlesIff | pkg/policy/policy.go:159-232 | with ties allowed, decisions survive on every selection of artifacts from the listing, in every order, if and only if the comparison is consistent on the listing |
| Coherence.CyclesDoNotSettle | pkg/policy/policy.go:174-226 | on three artifacts each sorted before the next in turn, with any stable sort, carrying out one planned deletion turns a kept artifact into one to delete |
| Mixed.MixedGroupsCycle | pkg/policy/policy.go:272-286 | three artifacts as parsed from real tags, each newer than the next in turn |
| Mixed.MixedGroupsDoNotSettle | internal/engine/engine.go:49-132 | for a validated policy over a listing of those three, whatever stable sort is used, the plan made after one planned deletion is carried out deletes an artifact the first plan kept |
| StableSort.InsertionSortIsStable | pkg/policy/policy.go:175-177 | a stable sort as the evaluator needs it exists: insertion sort permutes, and sorts stably wherever the comparison is consistent |
| StableSort.LibraryExists | internal/engine/engine.go:231-237 | with insertion sort for both sorts, every choice of regular expression behaviour makes a library as the planner needs it |
| EndToEnd.NewestTagDecides | internal/engine/engine.go:214-239 | an artifact one of whose tags is recognised is deleted only if that tag's date is at least delete_older_than ago and every other recognised tag names the same app |
| Engine.ParseArtifact | internal/engine/engine.go:214-239 | the loop over the tags yields the artifact with its versions, which are what `Recognition.VersionsAre` says; an unknown parser fails at the first tag |
| Recognition.VersionsAre | internal/engine/engine.go:214-254 | parsing changes nothing but the versions and fails exactly on an unknown parser with some tag; every version occurs exactly as often as its tag if the tag parses to it and a pattern for it is listed or none is, and not otherwise; versions descend by date and then sequence |
| Recognition.CalendarVersions | internal/engine/engine.go:214-254 | the same written out for a calendar policy: no patterns, or `vYYYY.MM.DD.x` for a version without app, or `vYYYY.MM.DD.x-{app}` for one with |
| Recognition.RegexIff | pkg/policy/policy.go:131-156 | a match whose four captures hold no dash is recognised as a version if and only if the captures named year, month, day, sequence and app spell it, under the original tag |
| Recognition.RegexFieldsIff | pkg/policy/policy.go:144-154 | a version made of a match is the one its captures spell if and only if none of the four contains a dash |
| Recognition.DashMovesToTheApp | pkg/policy/policy.go:144-154 | a sequence captured as a number, a dash and a legal app, with no app captured, becomes that number of that app |
| Engine.KeysIdentify | internal/engine/engine.go:287-289 | two artifacts share a key if and only if registry, repository and ID agree, when no registry or repository name holds the separator |
| Planner.LiveActionsAre | internal/engine/engine.go:88-103 | after any sequence of inserts, overwrites and deletes the live actions are the keys whose last vote is to delete, with the action of that vote |
| Planner.SweepLeavesAgreed | internal/engine/engine.go:111-113 | sweeping the protected keys leaves exactly the keys every vote deletes |
| Planner.Tally.constructor | internal/engine/engine.go:55-58 | the empty state reflects no evaluations |
| Planner.Tally.Record | internal/engine/engine.go:88-103 | one decision turns the maps of some votes into those of one vote more |
| Planner.Tally.RecordAll | internal/engine/engine.go:84-108 | recording an evaluation adds all its votes and exactly one limit record with its exact counts, for the listing and per repository |
| Planner.Tally.ParseListing | internal/engine/engine.go:78-83 | a listing parses or fails as a whole, and exactly the keys of the parsed artifacts become discovered |
| Planner.Tally.AddTarget | internal/engine/engine.go:67-109 | one target contributes exactly its evaluation, or the error that ends the run |
| Planner.Tally.AddPolicy | internal/engine/engine.go:66-109 | a policy contributes the evaluations of its targets in order, or the first error |
| Planner.CountDecision | internal/engine/engine.go:85-97 | the counters stay the exact numbers of entries and of deletions, overall and per repository |
| Planner.CheckLimit | internal/engine/engine.go:265-278 | the check passes if and only if both limits hold for the listing and for every repository, including those with nothing to delete |
| Planner.CheckLimits | internal/engine/engine.go:114-118 | the first evaluation that breaks its limits, if any, names the error |
| Planner.Plan | internal/engine/engine.go:49-132 | the plan computed with mutable maps is the declarative plan, with the same error in every failing case; `Listings`, `Promises` and `Failures` say what plan and which error that is |
| Orders.SortedKeys | internal/engine/engine.go:291-298 | the keys come out strictly ascending, none missing and none twice |
| Orders.LessIff | internal/engine/engine.go:291-298 | strings are ordered by the first character in which they differ, a prefix before what it begins |
| Planning.PlanIsTheVote | internal/engine/engine.go:60-131 | action keys are sorted and unique; a key is planned if and only if some evaluation saw it and none protects it; its action is that of the last evaluation to see it |
| Listings.EvaluationsInTurn | internal/engine/engine.go:60-84 | the evaluations are those of all targets of all policies, each once, on exactly what the target lists: policies in string order of their names, targets as configured |
| Listings.PlannedIff | internal/engine/engine.go:60-113 | a key is planned if and only if some target lists it and every target that lists it votes to delete it, at every position it is listed at |
| Listings.ActionsAreAttributed | internal/engine/engine.go:88-103 | the action on a key is that of the greatest policy name listing it, then of its last target, then of the last position: that policy, that artifact with the versions this policy recognises, and the single reason that it is old |
| Listings.PlanHeader | internal/engine/engine.go:120-131 | the plan carries the format version, the instant and one hour more, the fingerprint, ascending keys, and the numbers of keys listed and of those listed but kept |
| Promises.VoteIff | internal/engine/engine.go:60-103 | a target votes to delete what it lists if and only if nothing its policy's settings say keeps it: tags, patterns, digests, referrers, unparsed and untagged artifacts, one app, age of every recognised tag, and rank |
| Promises.PlannedAreExpendable | internal/engine/engine.go:49-132 | the keys of a plan are exactly those listed somewhere and kept by no setting of any policy wherever they are listed |
| Promises.UnparsedAreKept | internal/config/config.go:257-264 | unless a policy says unparsed_tags false nothing it lists without a recognised tag is planned, and unless it says require_tagged false nothing it lists without tags |
| Promises.PlannedHaveMatesAhead | internal/engine/engine.go:84-113 | wherever a planned artifact is listed in a group all parsed or all unparsed, at least keep_latest and keep_at_least of the group are ahead of it |
| Failures.EvaluationFailsIff | internal/engine/engine.go:60-83 | the listings are evaluated if and only if every protected pattern compiles and every target lists something that parses; otherwise the error is that of the first policy by name and there of its rule or else of its first target that fails, naming policy and registry |
| Failures.PlanFailsIff | internal/engine/engine.go:60-118 | planning succeeds if and only if also every target stays within its limits on the whole and in every repository; otherwise it fails with exactly the first such error, or naming the policy of the first target to exceed a limit |
| Planning.PlanConserves | internal/engine/engine.go:78-125 | discovered keys are the disjoint union of protected and planned keys, so the three counts of a plan add up |
| Planning.PlanSucceedsIff | internal/engine/engine.go:60-118 | with validated policies planning succeeds if and only if every target lists something and all limits hold |
| Planning.EvaluationsAreGenuine | internal/engine/engine.go:60-84 | every evaluation of a run is the evaluator's verdict on a non-empty listing under the rule of a configured policy |
| Planning.PlannedWereVotedOut | internal/engine/engine.go:88-113 | every entry whose key is planned was voted for deletion in every listing it occurs in |
| Planning.MinimumRetention | internal/engine/engine.go:88-113 | after the whole plan every group of every evaluation keeps the smaller of its size and its policy's reserve, whatever the sort did and other policies voted |
| Planning.DistinctKeysRemain | internal/engine/engine.go:287-289 | when the entries of a group have distinct keys those remaining entries are that many distinct artifacts |
| Limits.PercentPassesIff | internal/engine/engine.go:280-285 | the rounded percentage passes a limit if and only if the exact share lies below the limit cut to two decimals plus half a hundredth |
| Limits.RoundingAdmitsAnExcess | internal/engine/engine.go:280-285 | one of three passes a limit of 33.33 percent |
| Limits.DeletionIsBounded | internal/engine/engine.go:265-278 | for every listing and every repository in it, entries the plan deletes number at most max_delete_count and their exact share is below max_delete_percent plus 0.005 |
| Limits.PolicyIsBounded | internal/engine/engine.go:104-118 | a plan attributes to a policy at most its number of targets times its max_delete_count actions; with one target, at most max_delete_count |
| Limits.PolicyShareIsBounded | internal/engine/engine.go:265-285 | of everything all targets of a policy list, in total and in any one repository, the exact share a plan deletes is below max_delete_percent plus 0.005 |
| Limits.TotalIsBounded | internal/engine/engine.go:104-118 | a plan has at most as many actions as the sum over all policies of targets times max_delete_count |
| PerTarget.PolicyBoundIsTight | internal/engine/engine.go:104-108 | for every number of targets and every count a valid policy and listing reach the bound of targets times max_delete_count |
| PerTarget.AlwaysKeptIff | internal/engine/engine.go:104-118 | a validated policy with a given number of targets keeps its own max_delete_count in every plan if and only if the number is one |
| Convergence.ParseThenRemove | internal/engine/engine.go:78-83 | parsing a listing commutes with removing artifacts from it |
| Convergence.TargetShrinks | internal/engine/engine.go:67-84 | the evaluation of a target after a removal is the earlier one without the removed entries, and never fails for an empty listing |
| Convergence.AgreedShrinks | internal/engine/engine.go:88-113 | removing planned keys removes them from the vote and leaves every other action and the protected keys alone |
| Convergence.PercentShrinks | internal/engine/engine.go:280-285 | taking deletions out of both sides never raises the rounded percentage, so limits that held still hold |
| Convergence.Resumable | internal/engine/engine.go:49-132 | after any part of a plan is carried out, planning again at the same instant succeeds with exactly the remaining actions, in order, with their reasons, the same protected count and a discovered count lower by what is gone |
| Convergence.Converges | internal/engine/engine.go:49-132 | after the whole plan is carried out, planning again succeeds with no actions |
| Apply.Conservation | internal/engine/engine.go:149-202 | in every reachable state dispatched actions are a prefix of the plan, each with exactly one worker or in exactly one outcome, and no action is passed to `Delete` twice |
| Apply.Invariants | internal/engine/engine.go:149-202 | every reachable state balances its books and can explain why it is closed, cancelled or done |
| Apply.RunsAreBounded | internal/engine/engine.go:140-202 | no run of n actions and w workers is longer than 5n + w + 5 steps, whatever the responses and cancellations |
| Apply.MeasureDecreases | internal/engine/engine.go:149-202 | every step lowers the measure over unsent actions, worker stages and channel closures |
| Apply.NoDeadlock | internal/engine/engine.go:149-202 | until `Apply` returns some step of its own is enabled, and every worker that sends an outcome finds the channel open and the collector ready |
| Apply.CountersAddUp | internal/engine/engine.go:192-203 | on return exactly the dispatched prefix is reported, once each, the adjustment of the skipped counter is the number never dispatched, and the counters add up to the plan |
| Ledger.OutcomesTell | internal/engine/engine.go:155-176 | in every reachable state an outcome says deleted if and only if that action's deletion was accepted, skipped if and only if it was answered not found, failed if and only if it had no provider or any other answer |
| Ledger.CountersTell | internal/engine/engine.go:188-203 | on return deleted is the number of deletions accepted, skipped (before the actions never dispatched are added) the number not found, and failed the number rejected or answered otherwise |
| Apply.NilMeansDone | internal/engine/engine.go:208-211 | no error and no cancellation by the caller mean every action was passed to `Delete` exactly once and ended deleted or not found |
| Apply.NilMeansDoneIff | internal/engine/engine.go:192-211 | with no error, every action ended deleted or not found if and only if there are as many outcomes as actions |
| Apply.NilWithNothingDone | internal/engine/engine.go:178-187 | for every plan and concurrency there is a run, cancelled by its caller, that returns no error and attempted nothing |
| Apply.NilSettlesIff | internal/engine/engine.go:178-211 | no error always means that every action ended deleted or not found if and only if the caller may not cancel or there are no actions |
| Ledger.GoneIsReportedOrInFlight | internal/engine/engine.go:160-175 | in every reachable state the artifacts the registry has lost are those reported deleted or not found and those a worker is about to report so, and all were dispatched |
| Ledger.GoneOnReturn | internal/engine/engine.go:192-203 | on return the registry has lost exactly what is reported, as many artifacts as counted deleted and skipped; left are the failed actions and those never dispatched |
| Schedules.ScheduleIndependence | internal/engine/engine.go:146-211 | with distinct keys and fixed responses, when no action but the last lacks a provider or fails a precondition and the caller does not cancel, every complete run with any number of workers has the sorted outcomes and counters of deleting one action after the other |
| Schedules.IndependentIff | internal/engine/engine.go:146-211 | for fixed responses and a caller that does not cancel, all complete runs report the same outcomes if and only if no action but the last lacks a provider or fails a precondition |
| Schedules.TwoRuns | internal/engine/engine.go:155-185 | when an action cancels, one complete run reports only the actions up to it and another reports all |
| EndToEnd.ResumeAfterApply | internal/engine/engine.go:134-212 | in every state of every call, planning again against what the registry still holds yields the plan without exactly the actions reported or about to be reported as gone; after the return those left are as many as failed or were never dispatched; another configuration or a start more than an hour after planning leaves the whole plan |
| EndToEnd.NilResultSettles | internal/engine/engine.go:137-211 | a call that returned no error had the plan's configuration and started within the hour, and if it was not cut short, planning against what the registry still holds yields nothing |
| Scheduler.SkippedOccurrences | internal/scheduler/scheduler.go:216-222 | whenever some candidate is later than the finish the loop counts the candidates before it, and these are exactly the occurrences after the start and up to the finish when the schedule finds the next occurrence from the start and from each of them |
| Scheduler.StopsIff | internal/scheduler/scheduler.go:216-222 | with a monotone schedule the loop stops if and only if the schedule moves forward from every time between start and finish |
| Scheduler.SearchStopsIff | internal/scheduler/scheduler.go:216-222 | with a schedule that answers the zero time when it finds nothing, the loop stops if and only if it finds something from the start and from every occurrence up to the finish, and then its count is exact |
| Scheduler.NothingToFind | internal/scheduler/scheduler.go:216-222 | with a schedule that never finds an occurrence the loop does not stop |
| Scheduler.Loop.Run | internal/scheduler/scheduler.go:122-154 | after the run at start-up and any number of iterations, the gauge holds the occurrence last waited for, the counter the sum of those skipped, and the runs and the occurrences served are those of the clock readings |
| Scheduler.HandledAscend | internal/scheduler/scheduler.go:132-153 | the occurrences served strictly increase |
| Scheduler.RunsNeverOverlap | internal/scheduler/scheduler.go:122-154 | no two runs overlap, the one at start-up included |
| Scheduler.EveryOccurrenceIsAccountedFor | internal/scheduler/scheduler.go:132-153 | served, skipped, and fallen between a finish and the next clock reading together are all occurrences up to the last finish |
| Oci.ListRepository | internal/provider/oci/oci.go:176-200 | the index is strictly ascending by digest, holds exactly the resolved digests, each with its own tags sorted and its referrers; it fails if and only if a tag does not resolve or referrers cannot be listed |
| Oci.IndexTags | internal/provider/oci/oci.go:176-188 | every digest maps to the tags that resolve to it, in listing order |
| Oci.TagsAreConserved | internal/provider/oci/oci.go:177-188 | a tag keeps its multiplicity under the digest it resolves to and appears under no other |
| Oci.DecodeReferrers | internal/provider/oci/oci.go:266-278 | decoding fails if and only if some digest is invalid, and otherwise lists the distinct digests in ascending order |
| Oci.ReferrersTagIsLegal | internal/provider/oci/oci.go:281-335 | a digest has a referrers tag if and only if it is valid; the tag is legal under the OCI Distribution Specification v1.1 (section "Pulling manifests") and at most 97 characters |
| Oci.ReferrersTagIs | internal/provider/oci/oci.go:281-289 | the tag is the first 32 characters of the algorithm, a dash and the first 64 of the encoded digest, with a dash for each plus and equals sign |
| Oci.ValidDigestIff | internal/provider/oci/oci.go:291-319 | a digest is valid if and only if the part before its first colon starts with a letter and holds letters, digits and `+._-`, and the rest is not empty and holds letters, digits and `=_-`, being 64 or 128 lower-case hexadecimal digits for sha256 and sha512 |
| Oci.Sha256TagsAreInjective | internal/provider/oci/oci.go:281-289 | the referrers tag schema tells sha256 digests apart |
| Github.SameTags | internal/provider/github/github.go:294-309 | the answer is true if and only if the lists are equal as multisets |
| Github.MayDelete | internal/provider/github/github.go:90-94 | deletion goes ahead if and only if digest, update time and tag multiset are those of the plan, an empty digest or zero time being no condition |
| Server.AlwaysExclusive | internal/server/server.go:49-60 | in every reachable state at most one handler is active, the flag is up exactly while one is, and the mutex is held exactly while one runs |
| Server.OneRunAtATime | internal/server/server.go:54-60 | of any two requests at most one is between its swap and its release |
| Server.LockIsFree | internal/server/server.go:54-60 | locking the mutex never blocks, and a request is turned away exactly while one is active |

## Left out

- Scheduler.RunsNeverOverlap: assumes a clock that never goes back and timers that do not fire early; a cancellation between timer and run is not modelled.
- Schedules.IndependentIff: the responses are fixed, so a deletion already under way is not affected by a cancellation; the source hands the cancelled context to `Delete`, which may turn its answer into a failure.
- Coherence.SettlesIff: speaks of artifacts without referrers and with versions of one app, since any other is protected whatever its rank, and of listings without ties; with ties the outcome on a single listing depends on what the sort does with inconsistent groups.
- Github.MayDelete: the remote can change between the check and the deletion request.
- HTTP clients, authentication challenges, TLS, retries, JSON and YAML decoding, and pagination: I/O around unseen libraries.
- Regular expressions, `path.Match` and `MatchRepository`: library matching; patterns are predicates and captures are a map.
- The sort algorithms of the standard library: represented by what they promise.
- A registry named by a policy without a configured provider in `Plan`: validation rules it out (the fault `UnknownRegistry`), and the provider lookup is not modelled there.
- SHA-256 fingerprints and the plan's identity: the fingerprint is a string.
- Floating-point rounding error in `percent`: exact rationals instead.
- Cron parsing and time zones: an abstract next-occurrence function.
- The bodies of `execute` other than the run itself: time-outs, logs and gauges.
- Validation of registries, hooks, and schedule, and the order of validation messages.
- `Engine.Validate`, credentials, authorisation and binding checks: settled by single branches.
- Artifact fields no decision reads, such as sizes, media types and child digests.
- Error texts, and which of several failing registry calls is reported.
- Commands, reports, metrics, the webhook, health endpoints and the provider factory: wiring.
