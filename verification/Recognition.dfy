/** Which tags of an artifact are recognised as versions, and as which. */
module Recognition {
  import opened Artifacts
  import opened Gregorian
  import opened Calendar
  import opened Config
  import opened Engine

  /** The tag is recognised as this version: it parses to it, and a listed pattern, if any is listed, is for versions
      with an app or without one as this version is. */
  ghost predicate RecognisedAs(lib: Library, tags: Tags, tag: string, v: Version) {
    && (tags.parser == "calendar" ==> ParseCalendar(tag) == Ok(v))
    && (tags.parser != "calendar" ==> ParseRegex(lib, tag, tags.regex) == Some(v))
    && (|| |tags.patterns| == 0
        || (v.app == "" && "vYYYY.MM.DD.x" in tags.patterns)
        || (v.app != "" && "vYYYY.MM.DD.x-{app}" in tags.patterns))
  }

  lemma RecognisedKeepsTag(lib: Library, tags: Tags, tag: string, v: Version)
    requires RecognisedAs(lib, tags, tag, v)
    ensures v.tag == tag
  {
  }

  lemma RecognisedIff(lib: Library, tags: Tags, tag: string, v: Version)
    ensures RecognisedAs(lib, tags, tag, v) <==> ParseTag(lib, tags, tag) == Some(v) && PatternAllows(v, tags.patterns)
  {
  }

  function Occurrences<T(==)>(s: seq<T>, x: T): nat { multiset(s)[x] }

  lemma {:induction false} RecognisedCount(lib: Library, tags: Tags, names: seq<string>, v: Version, yes: bool)
    requires yes <==> RecognisedAs(lib, tags, v.tag, v)
    ensures Occurrences(Recognised(lib, tags, names), v) == if yes then Occurrences(names, v.tag) else 0
  {
    if |names| > 0 {
      RecognisedCount(lib, tags, names[..|names| - 1], v, yes);
      CountLast(names, v.tag);
      LastCounts(lib, tags, names, v, yes);
    }
  }

  lemma LastCounts(lib: Library, tags: Tags, names: seq<string>, v: Version, yes: bool)
    requires |names| > 0 && (yes <==> RecognisedAs(lib, tags, v.tag, v))
    ensures Occurrences(Recognised(lib, tags, names), v)
            == Occurrences(Recognised(lib, tags, names[..|names| - 1]), v)
               + (if names[|names| - 1] == v.tag && yes then 1 else 0)
  {
    var last := names[|names| - 1];
    var found, more := Recognised(lib, tags, names[..|names| - 1]), NewVersion(lib, tags, last);
    assert Recognised(lib, tags, names) == found + more;
    assert Occurrences(found + more, v) == Occurrences(found, v) + Occurrences(more, v);
    NewVersionCount(lib, tags, last, v);
  }

  /** What one tag adds. */
  function NewVersion(lib: Library, tags: Tags, tag: string): seq<Version> {
    var parsed := ParseTag(lib, tags, tag);
    if parsed.Some? && PatternAllows(parsed.value, tags.patterns) then [parsed.value] else []
  }

  lemma NewVersionCount(lib: Library, tags: Tags, tag: string, v: Version)
    ensures Occurrences(NewVersion(lib, tags, tag), v)
            == if tag == v.tag && RecognisedAs(lib, tags, v.tag, v) then 1 else 0
  {
    RecognisedIff(lib, tags, tag, v);
    if RecognisedAs(lib, tags, tag, v) { RecognisedKeepsTag(lib, tags, tag, v); }
  }

  lemma CountLast<T>(s: seq<T>, x: T)
    requires |s| > 0
    ensures Occurrences(s, x) == Occurrences(s[..|s| - 1], x) + (if x == s[|s| - 1] then 1 else 0)
  {
    assert s == s[..|s| - 1] + [s[|s| - 1]];
  }

  /** Parsing an artifact changes nothing but its versions, and fails exactly when it has a tag and the parser is not
      one of the two known ones. Each version occurs as often as its tag when the tag is recognised as that version, and
      not at all otherwise; the versions descend by date and then sequence. */
  lemma VersionsAre(lib: Library, a: Artifact, tags: Tags)
    requires LibraryOk(lib)
    ensures Parsed(lib, a, tags).Err? <==> a.tags != [] && tags.parser != "calendar" && tags.parser != "custom_regex"
    ensures Parsed(lib, a, tags).Ok? ==>
              var versions := Parsed(lib, a, tags).value.versions;
              && Parsed(lib, a, tags).value == a.(versions := versions)
              && (forall v: Version :: multiset(versions)[v]
                    == if RecognisedAs(lib, tags, v.tag, v) then multiset(a.tags)[v.tag] else 0)
              && Descend(versions)
  {
    if Parsed(lib, a, tags).Ok? {
      var found := Recognised(lib, tags, a.tags);
      var versions := lib.versionSort(found);
      forall v: Version
        ensures multiset(versions)[v] == if RecognisedAs(lib, tags, v.tag, v) then multiset(a.tags)[v.tag] else 0
      {
        RecognisedCount(lib, tags, a.tags, v, RecognisedAs(lib, tags, v.tag, v));
        assert multiset(versions) == multiset(found);
      }
    }
  }

  ghost predicate Descend(versions: seq<Version>) {
    forall i, j :: 0 <= i < j < |versions| ==>
      versions[i].date > versions[j].date
      || (versions[i].date == versions[j].date && versions[i].sequence >= versions[j].sequence)
  }

  lemma VersionIn(lib: Library, a: Artifact, tags: Tags, v: Version)
    requires LibraryOk(lib) && Parsed(lib, a, tags).Ok?
    ensures v in Parsed(lib, a, tags).value.versions <==> v.tag in a.tags && RecognisedAs(lib, tags, v.tag, v)
  {
    VersionsAre(lib, a, tags);
    var versions := Parsed(lib, a, tags).value.versions;
    assert v in versions <==> multiset(versions)[v] > 0;
    assert v.tag in a.tags <==> multiset(a.tags)[v.tag] > 0;
  }

  /** For a calendar policy: every version is the parse of its tag, and a tag that parses is recognised exactly when no
      pattern is listed or the one for its kind is. */
  lemma CalendarVersions(lib: Library, a: Artifact, tags: Tags, v: Version)
    requires LibraryOk(lib) && tags.parser == "calendar"
    ensures Parsed(lib, a, tags).Ok?
    ensures multiset(Parsed(lib, a, tags).value.versions)[v]
            == if && ParseCalendar(v.tag) == Ok(v)
                  && (|| tags.patterns == []
                      || (v.app == "" && "vYYYY.MM.DD.x" in tags.patterns)
                      || (v.app != "" && "vYYYY.MM.DD.x-{app}" in tags.patterns))
               then multiset(a.tags)[v.tag] else 0
  {
    VersionsAre(lib, a, tags);
  }

  // Custom expressions.

  /** The capture of this name, empty when there is none. */
  predicate Captures(m: map<string, string>, name: string, s: string) {
    if name in m then m[name] == s else s == ""
  }

  ghost predicate Captured(m: map<string, string>, parts: seq<string>, app: string) {
    && |parts| == 4 && Captures(m, "year", parts[0]) && Captures(m, "month", parts[1]) && Captures(m, "day", parts[2])
    && Captures(m, "sequence", parts[3]) && Captures(m, "app", app)
  }

  /** The calendar tag these fields are joined to. */
  function Assembled(parts: seq<string>, app: string): string
    requires |parts| == 4
  {
    "v" + (Joined(parts[0], parts[1], parts[2], parts[3]) + Suffix(app))
  }

  lemma NormalizedIsAssembled(m: map<string, string>, parts: seq<string>, app: string)
    requires Captured(m, parts, app)
    ensures Normalized(m) == Assembled(parts, app)
  {
    FieldByField(parts[0], parts[1], parts[2], parts[3], Suffix(app));
  }

  lemma Regroup(before: string, a: string, b: string)
    ensures before + a + "." + b == before + (a + "." + b)
  {
  }

  lemma FieldByField(a: string, b: string, c: string, d: string, suffix: string)
    ensures "v" + a + "." + b + "." + c + "." + d + suffix == "v" + (Joined(a, b, c, d) + suffix)
  {
    Regroup("v" + a + "." + b + ".", c, d);
    Regroup("v" + a + ".", b, c + "." + d);
    Regroup("v", a, b + "." + (c + "." + d));
    var main := Joined(a, b, c, d);
    assert "v" + main + suffix == "v" + (main + suffix);
  }

  ghost predicate Dashless(parts: seq<string>) {
    forall k :: 0 <= k < |parts| ==> '-' !in parts[k]
  }

  /** The version is what these four fields and this app spell. */
  ghost predicate SpelledBy(parts: seq<string>, app: string, v: Version) {
    && |parts| == 4 && v.app == app
    && exists c :: Spells(Assembled(parts, app), c, v.sequence, app, parts) && v.date == Instant(c)
  }

  function Dots(s: string): nat { multiset(s)['.'] }

  lemma {:induction false} SplitCount(s: string)
    ensures |Split(s, '.')| == 1 + Dots(s)
    decreases |s|
  {
    var (before, after, found) := Cut(s, '.');
    if found {
      SplitCount(after);
      assert Dots(s) == Dots(before) + Dots(".") + Dots(after);
    }
  }

  lemma JoinedDots(a: string, b: string, c: string, d: string)
    ensures Dots(Joined(a, b, c, d)) == Dots(a) + Dots(b) + Dots(c) + Dots(d) + 3
  {
    var cd := c + "." + d;
    var bcd := b + "." + cd;
    assert Dots(cd) == Dots(c) + 1 + Dots(d);
    assert Dots(bcd) == Dots(b) + 1 + Dots(cd);
    assert Dots(a + "." + bcd) == Dots(a) + 1 + Dots(bcd);
  }

  lemma NoDots(parts: seq<string>)
    requires |parts| == 4 && Dots(Joined(parts[0], parts[1], parts[2], parts[3])) == 3
    ensures forall k :: 0 <= k < 4 ==> '.' !in parts[k]
  {
    JoinedDots(parts[0], parts[1], parts[2], parts[3]);
    Dotless(parts[0]);
    Dotless(parts[1]);
    Dotless(parts[2]);
    Dotless(parts[3]);
  }

  lemma Dotless(s: string)
    ensures Dots(s) == 0 <==> '.' !in s
  {
    assert '.' in s <==> '.' in multiset(s);
  }

  lemma DotlessFields(parts: seq<string>, main: string)
    requires |parts| == 4 && main == Joined(parts[0], parts[1], parts[2], parts[3]) && |Split(main, '.')| == 4
    ensures forall k :: 0 <= k < 4 ==> '.' !in parts[k]
  {
    SplitCount(main);
    NoDots(parts);
  }

  /** Fields that are joined and split into four again are the same fields. */
  lemma FieldsComeBack(parts: seq<string>, main: string)
    requires |parts| == 4 && main == Joined(parts[0], parts[1], parts[2], parts[3]) && |Split(main, '.')| == 4
    ensures Split(main, '.') == parts
  {
    DotlessFields(parts, main);
    SplitJoined(parts[0], parts[1], parts[2], parts[3]);
    assert parts == [parts[0], parts[1], parts[2], parts[3]];
  }

  /** A calendar tag assembled from fields without dashes parses to what the fields spell, or not at all. */
  lemma AssembledIff(parts: seq<string>, app: string, v: Version)
    requires |parts| == 4 && Dashless(parts) && v.tag == Assembled(parts, app)
    ensures ParseCalendar(v.tag) == Ok(v) <==> SpelledBy(parts, app, v)
  {
    if ParseCalendar(v.tag) == Ok(v) {
      var c, again := ParsedIsSpelled(v.tag);
      SpelledFields(v.tag, c, v.sequence, v.app, again);
      SpelledByFields(parts, app, v, c, again);
    }
    if SpelledBy(parts, app, v) {
      var c :| Spells(Assembled(parts, app), c, v.sequence, app, parts) && v.date == Instant(c);
      SpelledIsParsed(v.tag, c, v.sequence, app, parts);
    }
  }

  lemma SpelledByFields(parts: seq<string>, app: string, v: Version, c: Civil, again: seq<string>)
    requires |parts| == 4 && Dashless(parts) && v.tag == Assembled(parts, app)
    requires Spells(v.tag, c, v.sequence, v.app, again) && v.date == Instant(c)
    requires forall k :: 0 <= k < 4 ==> '.' !in again[k] && '-' !in again[k]
    ensures SpelledBy(parts, app, v)
  {
    AssembledOnce(parts, app, again, v.app);
    SplitJoined(again[0], again[1], again[2], again[3]);
    assert again == [again[0], again[1], again[2], again[3]];
    FieldsComeBack(parts, Joined(parts[0], parts[1], parts[2], parts[3]));
  }

  lemma AssembledOnce(parts: seq<string>, app: string, again: seq<string>, appAgain: string)
    requires |parts| == |again| == 4 && Dashless(parts) && Dashless(again)
    requires Assembled(parts, app) == Assembled(again, appAgain)
    ensures app == appAgain
    ensures Joined(parts[0], parts[1], parts[2], parts[3]) == Joined(again[0], again[1], again[2], again[3])
  {
    MainIsCut(parts, app);
    MainIsCut(again, appAgain);
  }

  lemma MainIsCut(parts: seq<string>, app: string)
    requires |parts| == 4 && Dashless(parts)
    ensures Cut(Assembled(parts, app)[1..], '-')
            == (Joined(parts[0], parts[1], parts[2], parts[3]), app, app != "")
  {
    JoinedContains(parts[0], parts[1], parts[2], parts[3]);
    CutTag(Joined(parts[0], parts[1], parts[2], parts[3]), app);
  }

  lemma RegexNeedsMatch(lib: Library, tag: string, expression: string)
    requires ParseRegex(lib, tag, expression).Some?
    ensures ValidRegexParser(lib, expression) && lib.captures(expression, tag).Some?
  {
  }

  /** A match of a custom expression is recognised as the version its captures spell, under the original tag, and only
      then, as long as none of the four captures contains a dash. */
  lemma RegexIff(lib: Library, tag: string, expression: string, m: map<string, string>, parts: seq<string>, app: string,
                 v: Version)
    requires ValidRegexParser(lib, expression) && lib.captures(expression, tag) == Some(m)
    requires Captured(m, parts, app) && Dashless(parts)
    ensures ParseRegex(lib, tag, expression) == Some(v) <==> v.tag == tag && SpelledBy(parts, app, v)
  {
    NormalizedIsAssembled(m, parts, app);
    var w := v.(tag := Assembled(parts, app));
    AssembledIff(parts, app, w);
    assert SpelledBy(parts, app, w) <==> SpelledBy(parts, app, v);
    if ParseRegex(lib, tag, expression) == Some(v) {
      assert ParseCalendar(w.tag) == Ok(w) by { var _, _ := ParsedIsSpelled(w.tag); }
    }
  }

  /** A version made of a custom match is the one its captures spell exactly when none of the four contains a dash: one
      with a dash is cut there, and the rest of it joins the app. */
  lemma RegexFieldsIff(lib: Library, tag: string, expression: string, m: map<string, string>, parts: seq<string>,
                       app: string)
    requires ParseRegex(lib, tag, expression).Some? && lib.captures(expression, tag) == Some(m)
    requires Captured(m, parts, app)
    ensures SpelledBy(parts, app, ParseRegex(lib, tag, expression).value) <==> Dashless(parts)
  {
    var v := ParseRegex(lib, tag, expression).value;
    if Dashless(parts) {
      RegexIff(lib, tag, expression, m, parts, app, v);
    }
    if SpelledBy(parts, app, v) {
      var c :| Spells(Assembled(parts, app), c, v.sequence, app, parts) && v.date == Instant(c);
      SpelledFields(Assembled(parts, app), c, v.sequence, app, parts);
    }
  }

  lemma JoinedTail(a: string, b: string, c: string, d: string, tail: string)
    ensures Joined(a, b, c, d + tail) == Joined(a, b, c, d) + tail
  {
    assert c + "." + (d + tail) == c + "." + d + tail;
    assert b + "." + (c + "." + d + tail) == b + "." + (c + "." + d) + tail;
  }

  /** A sequence captured with a dash: the rest of it becomes the app. */
  lemma DashMovesToTheApp(lib: Library, tag: string, expression: string, m: map<string, string>, c: Civil,
                          sequence: nat, rest: string)
    requires Printable(c) && sequence < UINT64_LIMIT && AppName(rest)
    requires ValidRegexParser(lib, expression) && lib.captures(expression, tag) == Some(m)
    requires Captured(m, [Padded(c.year, 4), Padded(c.month, 2), Padded(c.day, 2), Decimal(sequence) + ("-" + rest)],
                      "")
    ensures ParseRegex(lib, tag, expression) == Some(Version(tag, Instant(c), sequence, rest))
  {
    var year, month, day, x := Padded(c.year, 4), Padded(c.month, 2), Padded(c.day, 2), Decimal(sequence);
    PrintThenParse(c, sequence, rest);
    NormalizedIsAssembled(m, [year, month, day, x + ("-" + rest)], "");
    JoinedTail(year, month, day, x, "-" + rest);
    assert Joined(year, month, day, x) + ("-" + rest) + "" == Joined(year, month, day, x) + ("-" + rest);
  }
}
