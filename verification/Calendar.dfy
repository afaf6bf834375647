/** The calendar tag parser, and the printer it is the inverse of. */
module Calendar {
  import opened Artifacts
  import opened Gregorian

  datatype ParseError =
    | NoPrefix | BadShape | BadYear | BadMonth | BadDay | BadSequence | BadDate | EmptyApp | BadApp

  const UINT64_LIMIT := 0x1_0000_0000_0000_0000

  predicate IsDigit(c: char) { '0' <= c <= '9' }

  predicate AllDigits(s: string) { forall i :: 0 <= i < |s| ==> IsDigit(s[i]) }

  function Value(s: string): nat
    requires AllDigits(s)
  {
    if s == "" then 0 else Value(s[..|s| - 1]) * 10 + (s[|s| - 1] - '0') as nat
  }

  /** `strconv.Atoi`: an optional sign and at least one digit, within 64 bits. */
  function Atoi(s: string): Option<int> {
    var digits := if s != "" && s[0] in "+-" then s[1..] else s;
    if digits == "" || !AllDigits(digits) then None
    else
      var v: int := if s[0] == '-' then -(Value(digits) as int) else Value(digits);
      if -0x8000_0000_0000_0000 <= v < 0x8000_0000_0000_0000 then Some(v) else None
  }

  /** `strconv.ParseUint(s, 10, 64)`: digits only. */
  function ParseUint(s: string): Option<nat> {
    if s == "" || !AllDigits(s) || Value(s) >= UINT64_LIMIT then None else Some(Value(s))
  }

  /** `strings.Cut` at the first separator. */
  function Cut(s: string, sep: char): (r: (string, string, bool))
    ensures r.2 ==> s == r.0 + [sep] + r.1 && sep !in r.0
    ensures !r.2 ==> r.0 == s && r.1 == "" && sep !in s
  {
    if s == "" then ("", "", false)
    else if s[0] == sep then ("", s[1..], true)
    else
      var (before, after, found) := Cut(s[1..], sep);
      assert s == [s[0]] + s[1..];
      ([s[0]] + before, after, found)
  }

  /** `strings.Split` by a one-character separator. */
  function Split(s: string, sep: char): (parts: seq<string>)
    ensures |parts| > 0
    decreases |s|
  {
    var (before, after, found) := Cut(s, sep);
    if found then [before] + Split(after, sep) else [before]
  }

  predicate AppChar(c: char) {
    'a' <= c <= 'z' || '0' <= c <= '9' || c == '_' || c == '.' || c == '-'
  }

  predicate AppName(app: string) {
    app != "" && forall i :: 0 <= i < |app| ==> AppChar(app[i])
  }

  function Instant(c: Civil): int { DayNumber(c) * NS_PER_DAY }

  /** The numeric fields YYYY, MM, DD and x of a tag, and the check that they name a real date. */
  function ParseFields(parts: seq<string>): Result<(Civil, nat), ParseError> {
    if |parts| != 4 then Err(BadShape)
    else if Atoi(parts[0]).None? || |parts[0]| != 4 then Err(BadYear)
    else if Atoi(parts[1]).None? || |parts[1]| != 2 then Err(BadMonth)
    else if Atoi(parts[2]).None? || |parts[2]| != 2 then Err(BadDay)
    else if ParseUint(parts[3]).None? then Err(BadSequence)
    else
      var c := Civil(Atoi(parts[0]).value, Atoi(parts[1]).value, Atoi(parts[2]).value);
      if CivilOf(DayNumber(c)) != c then Err(BadDate) else Ok((c, ParseUint(parts[3]).value))
  }

  function ParseCalendar(tag: string): Result<Version, ParseError> {
    if tag == "" || tag[0] != 'v' then Err(NoPrefix)
    else
      var (main, app, hasApp) := Cut(tag[1..], '-');
      match ParseFields(Split(main, '.'))
      case Err(e) => Err(e)
      case Ok((c, sequence)) =>
        if hasApp && app == "" then Err(EmptyApp)
        else if hasApp && !AppName(app) then Err(BadApp)
        else Ok(Version(tag, Instant(c), sequence, app))
  }

  // The printer.

  function DigitOf(d: nat): char
    requires d < 10
  {
    '0' + d as char
  }

  function Decimal(n: nat): string {
    if n < 10 then [DigitOf(n)] else Decimal(n / 10) + [DigitOf(n % 10)]
  }

  function Padded(n: nat, width: nat): string {
    if width == 0 then "" else Padded(n / 10, width - 1) + [DigitOf(n % 10)]
  }

  predicate Printable(c: Civil) { RealDate(c) && 0 <= c.year <= 9999 }

  /** vYYYY.MM.DD.x, with -app when there is one. */
  function Print(c: Civil, sequence: nat, app: string): string
    requires Printable(c)
  {
    "v" + (Joined(Padded(c.year, 4), Padded(c.month, 2), Padded(c.day, 2), Decimal(sequence)) + Suffix(app))
  }

  function Joined(a: string, b: string, c: string, d: string): string {
    a + "." + (b + "." + (c + "." + d))
  }

  function Suffix(app: string): string { if app == "" then "" else "-" + app }

  /** The date a version carries. */
  function DateOf(v: Version): Civil { CivilOf(v.date / NS_PER_DAY) }

  // Numbers.

  lemma {:induction false} DecimalValue(n: nat)
    ensures AllDigits(Decimal(n)) && Decimal(n) != "" && Value(Decimal(n)) == n
  {
    if n >= 10 {
      DecimalValue(n / 10);
      assert Decimal(n)[..|Decimal(n)| - 1] == Decimal(n / 10);
    } else {
      assert Value(Decimal(n)) == Value("") * 10 + n;
    }
  }

  function PowerOfTen(k: nat): nat { if k == 0 then 1 else 10 * PowerOfTen(k - 1) }

  lemma {:induction false} PaddedValue(n: nat, width: nat)
    requires n < PowerOfTen(width)
    ensures AllDigits(Padded(n, width)) && |Padded(n, width)| == width && Value(Padded(n, width)) == n
  {
    if width > 0 {
      PaddedValue(n / 10, width - 1);
      assert Padded(n, width)[..width - 1] == Padded(n / 10, width - 1);
    }
  }

  lemma {:induction false} ValueBound(s: string)
    requires AllDigits(s)
    ensures Value(s) < PowerOfTen(|s|)
  {
    if s != "" {
      ValueBound(s[..|s| - 1]);
    }
  }

  /** Padding the value of a digit string to its length gives the string back. */
  lemma {:induction false} PaddedOfValue(s: string)
    requires AllDigits(s)
    ensures Padded(Value(s), |s|) == s
  {
    if s != "" {
      PaddedOfValue(s[..|s| - 1]);
      assert s == s[..|s| - 1] + [s[|s| - 1]];
    }
  }

  /** Printing the value of a digit string gives it back exactly when it has no leading zero. */
  lemma {:induction false} DecimalOfValue(s: string)
    requires AllDigits(s) && s != ""
    ensures Decimal(Value(s)) == s <==> |s| == 1 || s[0] != '0'
    ensures s[0] != '0' ==> Value(s) > 0
  {
    var init, last := s[..|s| - 1], s[|s| - 1];
    if init == "" {
      assert Value(init) == 0;
    } else {
      DecimalOfValue(init);
      DecimalStep(Value(init), last);
      if s[0] != '0' {
        assert s == init + [last];
      } else {
        DecimalNoLeadingZero(Value(s));
      }
    }
  }

  lemma DecimalStep(n: nat, last: char)
    requires IsDigit(last)
    ensures n > 0 ==> Decimal(10 * n + (last - '0') as nat) == Decimal(n) + [last]
  {
    var d := (last - '0') as nat;
    assert (10 * n + d) / 10 == n && (10 * n + d) % 10 == d;
    assert DigitOf(d) == last;
  }

  lemma {:induction false} DecimalNoLeadingZero(n: nat)
    ensures Decimal(n) != "" && (Decimal(n)[0] == '0' ==> n == 0 && |Decimal(n)| == 1)
  {
    if n >= 10 {
      DecimalNoLeadingZero(n / 10);
    }
  }

  lemma NoSeparators(s: string)
    requires AllDigits(s)
    ensures '.' !in s && '-' !in s && '+' !in s
  {
  }

  // Cutting and splitting.

  lemma {:induction false} CutAt(before: string, sep: char, after: string)
    requires sep !in before
    ensures Cut(before + [sep] + after, sep) == (before, after, true)
  {
    var s := before + [sep] + after;
    if before != "" {
      CutAt(before[1..], sep, after);
      assert s[1..] == before[1..] + [sep] + after;
      assert s[0] == before[0] && before == [before[0]] + before[1..];
    } else {
      assert s[0] == sep && s[1..] == after;
    }
  }

  lemma SplitStep(a: string, rest: string)
    requires '.' !in a
    ensures Split(a + "." + rest, '.') == [a] + Split(rest, '.')
  {
    CutAt(a, '.', rest);
  }

  lemma SplitJoined(a: string, b: string, c: string, d: string)
    requires '.' !in a && '.' !in b && '.' !in c && '.' !in d
    ensures Split(Joined(a, b, c, d), '.') == [a, b, c, d]
  {
    SplitStep(a, b + "." + (c + "." + d));
    SplitStep(b, c + "." + d);
    SplitStep(c, d);
    assert Split(d, '.') == [d];
  }

  /** Splitting loses only the separators. */
  lemma JoinSplit(s: string)
    requires |Split(s, '.')| == 4
    ensures var p := Split(s, '.'); s == Joined(p[0], p[1], p[2], p[3])
  {
    var s1 := Cut(s, '.').1;
    var s2 := Cut(s1, '.').1;
    var s3 := Cut(s2, '.').1;
    assert Split(s, '.') == [Cut(s, '.').0] + Split(s1, '.');
    assert Split(s1, '.') == [Cut(s1, '.').0] + Split(s2, '.');
    assert Split(s2, '.') == [Cut(s2, '.').0] + Split(s3, '.');
    assert Split(s3, '.') == [s3];
  }

  /** The prefix and the app of a tag, once its numeric part is known. */
  lemma CutTag(main: string, app: string)
    requires '-' !in main
    ensures var tag := "v" + (main + Suffix(app)); tag[0] == 'v' && Cut(tag[1..], '-') == (main, app, app != "")
  {
    var tag := "v" + (main + Suffix(app));
    assert tag[1..] == main + Suffix(app);
    if app == "" {
      assert main + Suffix(app) == main;
    } else {
      CutAt(main, '-', app);
      assert main + Suffix(app) == main + "-" + app;
    }
  }

  lemma PowersOfTen()
    ensures PowerOfTen(2) == 100 && PowerOfTen(3) == 1000 && PowerOfTen(4) == 10000
  {
    assert PowerOfTen(1) == 10;
    assert PowerOfTen(3) == 10 * PowerOfTen(2);
    assert PowerOfTen(4) == 10 * PowerOfTen(3);
  }

  function PrintedParts(c: Civil, sequence: nat): seq<string>
    requires Printable(c)
  {
    [Padded(c.year, 4), Padded(c.month, 2), Padded(c.day, 2), Decimal(sequence)]
  }

  ghost predicate Unpunctuated(s: string) { '.' !in s && '-' !in s && '+' !in s }

  /** A padded number is a legal field of its width. */
  lemma PaddedField(n: nat, width: nat)
    requires 0 < width && n < PowerOfTen(width) <= 10000
    ensures |Padded(n, width)| == width && Unpunctuated(Padded(n, width)) && Atoi(Padded(n, width)) == Some(n)
  {
    PaddedValue(n, width);
    NoSeparators(Padded(n, width));
  }

  lemma DecimalField(n: nat)
    requires n < UINT64_LIMIT
    ensures Unpunctuated(Decimal(n)) && ParseUint(Decimal(n)) == Some(n)
  {
    DecimalValue(n);
    NoSeparators(Decimal(n));
  }

  ghost predicate NoPunctuation(parts: seq<string>) {
    forall k :: 0 <= k < |parts| ==> Unpunctuated(parts[k])
  }

  /** The numeric fields of a printed version. */
  lemma PrintedFields(c: Civil, sequence: nat)
    requires Printable(c) && sequence < UINT64_LIMIT
    ensures NoPunctuation(PrintedParts(c, sequence)) && ParseFields(PrintedParts(c, sequence)) == Ok((c, sequence))
  {
    PowersOfTen();
    PaddedField(c.year, 4);
    PaddedField(c.month, 2);
    PaddedField(c.day, 2);
    DecimalField(sequence);
    FieldsParse(Padded(c.year, 4), Padded(c.month, 2), Padded(c.day, 2), Decimal(sequence), c, sequence);
  }

  lemma FieldsParse(year: string, month: string, day: string, x: string, c: Civil, sequence: nat)
    requires |year| == 4 && |month| == |day| == 2 && RealDate(c)
    requires Unpunctuated(year) && Unpunctuated(month) && Unpunctuated(day) && Unpunctuated(x)
    requires Atoi(year) == Some(c.year) && Atoi(month) == Some(c.month) && Atoi(day) == Some(c.day)
    requires ParseUint(x) == Some(sequence)
    ensures NoPunctuation([year, month, day, x]) && ParseFields([year, month, day, x]) == Ok((c, sequence))
  {
    NormaliseAndCompareIsExact(c);
  }

  /** Parsing a printed version returns what was printed. */
  lemma PrintThenParse(c: Civil, sequence: nat, app: string)
    requires Printable(c) && sequence < UINT64_LIMIT && (app == "" || AppName(app))
    ensures var tag := Print(c, sequence, app);
            ParseCalendar(tag) == Ok(Version(tag, Instant(c), sequence, app))
  {
    var parts := PrintedParts(c, sequence);
    PrintedFields(c, sequence);
    SplitJoined(parts[0], parts[1], parts[2], parts[3]);
    CutTag(Joined(parts[0], parts[1], parts[2], parts[3]), app);
  }

  /** What accepted numeric fields are made of. */
  lemma AcceptedFields(parts: seq<string>)
    requires ParseFields(parts).Ok? && '-' !in parts[0]
    ensures Printable(ParseFields(parts).value.0) && ParseFields(parts).value.1 < UINT64_LIMIT
  {
    NormaliseAndCompareIsExact(ParseFields(parts).value.0);
    YearBound(parts[0]);
  }

  lemma YearBound(s: string)
    requires |s| == 4 && '-' !in s && Atoi(s).Some?
    ensures 0 <= Atoi(s).value <= 9999
  {
    ValueBound(if s[0] == '+' then s[1..] else s);
    PowersOfTen();
  }

  lemma TagShape(tag: string)
    requires tag != "" && tag[0] == 'v'
    requires var (main, app, hasApp) := Cut(tag[1..], '-'); hasApp ==> app != ""
    ensures var (main, app, hasApp) := Cut(tag[1..], '-'); '-' !in main && tag == "v" + (main + Suffix(app))
  {
    var (main, app, hasApp) := Cut(tag[1..], '-');
    MainAndSuffix(tag[1..], main, app, hasApp);
    assert tag == [tag[0]] + tag[1..];
  }

  lemma MainAndSuffix(s: string, main: string, app: string, hasApp: bool)
    requires Cut(s, '-') == (main, app, hasApp) && (hasApp ==> app != "")
    ensures '-' !in main && s == main + Suffix(app)
  {
    if hasApp {
      assert main + "-" + app == main + ("-" + app);
    } else {
      assert main + "" == main;
    }
  }

  lemma PartsOf(main: string, bad: char)
    requires bad !in main && |Split(main, '.')| == 4
    ensures forall k :: 0 <= k < 4 ==> bad !in Split(main, '.')[k]
  {
    var p := Split(main, '.');
    JoinSplit(main);
    JoinedContains(p[0], p[1], p[2], p[3]);
  }

  /** What an accepted tag is made of. */
  lemma Accepted(tag: string) returns (c: Civil, parts: seq<string>)
    requires ParseCalendar(tag).Ok?
    ensures parts == Split(Cut(tag[1..], '-').0, '.') && |parts| == 4
    ensures var v := ParseCalendar(tag).value;
            && ParseFields(parts) == Ok((c, v.sequence)) && Printable(c) && v.sequence < UINT64_LIMIT
            && v.date == Instant(c) && DateOf(v) == c && v.tag == tag && (v.app == "" || AppName(v.app))
            && tag == "v" + (Joined(parts[0], parts[1], parts[2], parts[3]) + Suffix(v.app))
    ensures forall k :: 0 <= k < 4 ==> '-' !in parts[k]
  {
    var main := Cut(tag[1..], '-').0;
    parts := Split(main, '.');
    c := ParseFields(parts).value.0;
    TagShape(tag);
    JoinSplit(main);
    PartsOf(main, '-');
    AcceptedFields(parts);
    assert Instant(c) / NS_PER_DAY == DayNumber(c);
    NormaliseAndCompareIsExact(c);
  }

  lemma JoinedContains(a: string, b: string, c: string, d: string)
    ensures forall x :: x in Joined(a, b, c, d) <==> x in a || x in b || x in c || x in d || x == '.'
  {
    var cd := c + "." + d;
    var bcd := b + "." + cd;
    assert forall x :: x in cd <==> x in c || x in d || x == '.';
    assert forall x :: x in bcd <==> x in b || x in cd || x == '.';
  }

  /** Printing an accepted tag is a normal form: it parses to the same date, sequence and app. */
  lemma ParseThenPrint(tag: string)
    requires ParseCalendar(tag).Ok?
    ensures var v := ParseCalendar(tag).value;
            && Printable(DateOf(v)) && v.date == Instant(DateOf(v))
            && var normal := Print(DateOf(v), v.sequence, v.app);
               ParseCalendar(normal) == Ok(v.(tag := normal))
  {
    var c, _ := Accepted(tag);
    var v := ParseCalendar(tag).value;
    PrintThenParse(c, v.sequence, v.app);
  }

  /** An accepted tag is its own normal form exactly when no number in it carries a plus sign and its
      sequence has no leading zero. */
  lemma NormalFormIsExact(tag: string)
    requires ParseCalendar(tag).Ok?
    ensures var v := ParseCalendar(tag).value;
            var parts := Split(Cut(tag[1..], '-').0, '.');
            && Printable(DateOf(v)) && |parts| == 4 && parts[3] != ""
            && (Print(DateOf(v), v.sequence, v.app) == tag
                <==> '+' !in tag && (|parts[3]| == 1 || parts[3][0] != '0'))
  {
    var c, parts := Accepted(tag);
    var v := ParseCalendar(tag).value;
    NormalForm(tag, c, v.sequence, v.app, parts);
  }

  /** The same for the fields of the tag. */
  lemma NormalForm(tag: string, c: Civil, sequence: nat, app: string, parts: seq<string>)
    requires Printable(c) && sequence < UINT64_LIMIT && (app == "" || AppName(app))
    requires ParseFields(parts) == Ok((c, sequence)) && forall k :: 0 <= k < 4 ==> '-' !in parts[k]
    requires tag == "v" + (Joined(parts[0], parts[1], parts[2], parts[3]) + Suffix(app))
    ensures |parts| == 4 && parts[3] != ""
    ensures Print(c, sequence, app) == tag <==> '+' !in tag && (|parts[3]| == 1 || parts[3][0] != '0')
  {
    PrintedWithoutPlus(c, sequence, app);
    if '+' !in tag {
      WithoutPlus(tag, c, sequence, app, parts);
    }
  }

  lemma WithoutPlus(tag: string, c: Civil, sequence: nat, app: string, parts: seq<string>)
    requires '+' !in tag && Printable(c) && ParseFields(parts) == Ok((c, sequence)) && (app == "" || AppName(app))
    requires tag == "v" + (Joined(parts[0], parts[1], parts[2], parts[3]) + Suffix(app))
    requires forall k :: 0 <= k < 4 ==> '-' !in parts[k]
    ensures Print(c, sequence, app) == tag <==> |parts[3]| == 1 || parts[3][0] != '0'
  {
    PlusSigns(parts, app, tag);
    FieldsNormal(c, sequence, parts, Suffix(app));
  }

  lemma PrintedWithoutPlus(c: Civil, sequence: nat, app: string)
    requires Printable(c) && sequence < UINT64_LIMIT && (app == "" || AppName(app))
    ensures '+' !in Print(c, sequence, app)
  {
    PrintedFields(c, sequence);
    PlusSigns(PrintedParts(c, sequence), app, Print(c, sequence, app));
  }

  /** The same for the numeric fields alone. */
  lemma FieldsNormal(c: Civil, sequence: nat, parts: seq<string>, suffix: string)
    requires Printable(c) && ParseFields(parts) == Ok((c, sequence))
    requires forall k :: 0 <= k < 4 ==> '-' !in parts[k] && '+' !in parts[k]
    ensures var printed := PrintedParts(c, sequence);
            "v" + (Joined(printed[0], printed[1], printed[2], printed[3]) + suffix)
            == "v" + (Joined(parts[0], parts[1], parts[2], parts[3]) + suffix)
            <==> |parts[3]| == 1 || parts[3][0] != '0'
  {
    Unsigned(parts[0], 4);
    Unsigned(parts[1], 2);
    Unsigned(parts[2], 2);
    DecimalOfValue(parts[3]);
    JoinedIsInjective(parts[0], parts[1], parts[2], Decimal(sequence), parts[3], suffix);
  }

  lemma PlusSigns(parts: seq<string>, app: string, tag: string)
    requires |parts| == 4 && (app == "" || AppName(app))
    requires tag == "v" + (Joined(parts[0], parts[1], parts[2], parts[3]) + Suffix(app))
    ensures '+' in tag <==> exists k :: 0 <= k < 4 && '+' in parts[k]
  {
    JoinedContains(parts[0], parts[1], parts[2], parts[3]);
    var main := Joined(parts[0], parts[1], parts[2], parts[3]);
    assert '+' !in Suffix(app) by { assert '+' !in app; assert forall x :: x in Suffix(app) ==> x == '-' || x in app; }
    assert '+' in main + Suffix(app) <==> '+' in main;
    assert '+' in tag <==> '+' in main + Suffix(app);
    if '+' in tag {
      var k := if '+' in parts[0] then 0 else if '+' in parts[1] then 1 else if '+' in parts[2] then 2 else 3;
      assert '+' in parts[k];
    }
  }

  lemma JoinedIsInjective(a: string, b: string, c: string, d: string, e: string, suffix: string)
    ensures "v" + (Joined(a, b, c, d) + suffix) == "v" + (Joined(a, b, c, e) + suffix) <==> d == e
  {
    var prefix := "v" + (a + "." + (b + "." + (c + ".")));
    assert "v" + (Joined(a, b, c, d) + suffix) == prefix + d + suffix;
    assert "v" + (Joined(a, b, c, e) + suffix) == prefix + e + suffix;
    if d != e {
      MiddlesDiffer(prefix, d, e, suffix);
    }
  }

  lemma MiddlesDiffer(prefix: string, a: string, b: string, suffix: string)
    requires a != b
    ensures prefix + a + suffix != prefix + b + suffix
  {
    var s, t := prefix + a + suffix, prefix + b + suffix;
    if |a| == |b| {
      var i :| 0 <= i < |a| && a[i] != b[i];
      assert s[|prefix| + i] == a[i] && t[|prefix| + i] == b[i];
    }
  }

  /** A number without signs is the padded form of its value. */
  lemma Unsigned(s: string, width: nat)
    requires |s| == width && width > 0 && '+' !in s && '-' !in s && Atoi(s).Some?
    ensures Atoi(s).value >= 0 && Padded(Atoi(s).value, width) == s
  {
    PaddedOfValue(s);
  }

  // Everything the parser accepts.

  /** An optional plus sign and decimal digits of this value. */
  predicate Numeral(s: string, n: int) {
    var digits := if s != "" && s[0] == '+' then s[1..] else s;
    digits != "" && AllDigits(digits) && Value(digits) == n
  }

  lemma NumeralIff(s: string)
    requires '-' !in s && |s| <= 4
    ensures forall n :: Atoi(s) == Some(n) <==> Numeral(s, n)
  {
    var digits := if s != "" && s[0] == '+' then s[1..] else s;
    if AllDigits(digits) {
      ValueBound(digits);
      SmallPowers(|digits|);
    }
  }

  lemma SmallPowers(k: nat)
    requires k <= 4
    ensures PowerOfTen(k) <= 10000
  {
    PowersOfTen();
  }

  /** The tag spells this date, sequence and app: four dot-separated numbers of four, two, two and any number of
      characters after a `v`, signs allowed in the first three, and the app after a dash. */
  ghost predicate Spells(tag: string, c: Civil, sequence: nat, app: string, parts: seq<string>) {
    && |parts| == 4 && |parts[0]| == 4 && |parts[1]| == 2 && |parts[2]| == 2 && parts[3] != ""
    && Numeral(parts[0], c.year) && Numeral(parts[1], c.month) && Numeral(parts[2], c.day)
    && AllDigits(parts[3]) && Value(parts[3]) == sequence < 18_446_744_073_709_551_616
    && RealDate(c) && (app == "" || AppName(app))
    && tag == "v" + (Joined(parts[0], parts[1], parts[2], parts[3]) + Suffix(app))
  }

  lemma NumeralIsPlain(s: string, n: int)
    requires Numeral(s, n)
    ensures '.' !in s && '-' !in s
    ensures |s| <= 4 ==> Atoi(s) == Some(n)
  {
    if s[0] == '+' { assert s == [s[0]] + s[1..]; }
    if |s| <= 4 { NumeralIff(s); }
  }

  lemma SpelledFields(tag: string, c: Civil, sequence: nat, app: string, parts: seq<string>)
    requires Spells(tag, c, sequence, app, parts)
    ensures (forall k :: 0 <= k < 4 ==> '.' !in parts[k] && '-' !in parts[k]) && ParseFields(parts) == Ok((c, sequence))
  {
    NumbersArePlain(parts, c);
    NumbersParse(parts, c, sequence);
  }

  lemma NumbersArePlain(parts: seq<string>, c: Civil)
    requires |parts| == 4 && |parts[0]| <= 4 && |parts[1]| <= 4 && |parts[2]| <= 4 && AllDigits(parts[3])
    requires Numeral(parts[0], c.year) && Numeral(parts[1], c.month) && Numeral(parts[2], c.day)
    ensures forall k :: 0 <= k < 4 ==> '.' !in parts[k] && '-' !in parts[k]
    ensures Atoi(parts[0]) == Some(c.year) && Atoi(parts[1]) == Some(c.month) && Atoi(parts[2]) == Some(c.day)
  {
    NumeralIsPlain(parts[0], c.year);
    NumeralIsPlain(parts[1], c.month);
    NumeralIsPlain(parts[2], c.day);
    NoSeparators(parts[3]);
  }

  lemma NumbersParse(parts: seq<string>, c: Civil, sequence: nat)
    requires |parts| == 4 && |parts[0]| == 4 && |parts[1]| == 2 && |parts[2]| == 2 && RealDate(c)
    requires Atoi(parts[0]) == Some(c.year) && Atoi(parts[1]) == Some(c.month) && Atoi(parts[2]) == Some(c.day)
    requires ParseUint(parts[3]) == Some(sequence)
    ensures ParseFields(parts) == Ok((c, sequence))
  {
    NormaliseAndCompareIsExact(c);
  }

  lemma SpelledIsParsed(tag: string, c: Civil, sequence: nat, app: string, parts: seq<string>)
    requires Spells(tag, c, sequence, app, parts)
    ensures ParseCalendar(tag) == Ok(Version(tag, Instant(c), sequence, app))
  {
    SpelledFields(tag, c, sequence, app, parts);
    FieldsAreParsed(Joined(parts[0], parts[1], parts[2], parts[3]), c, sequence, app, parts);
  }

  lemma FieldsAreParsed(main: string, c: Civil, sequence: nat, app: string, parts: seq<string>)
    requires |parts| == 4 && (forall k :: 0 <= k < 4 ==> '.' !in parts[k] && '-' !in parts[k])
    requires main == Joined(parts[0], parts[1], parts[2], parts[3])
    requires ParseFields(parts) == Ok((c, sequence)) && (app == "" || AppName(app))
    ensures var tag := "v" + (main + Suffix(app)); ParseCalendar(tag) == Ok(Version(tag, Instant(c), sequence, app))
  {
    SplitJoined(parts[0], parts[1], parts[2], parts[3]);
    assert Split(main, '.') == parts;
    JoinedContains(parts[0], parts[1], parts[2], parts[3]);
    CutTag(main, app);
  }

  lemma ParsedIsSpelled(tag: string) returns (c: Civil, parts: seq<string>)
    requires ParseCalendar(tag).Ok?
    ensures var v := ParseCalendar(tag).value;
            Spells(tag, c, v.sequence, v.app, parts) && v.date == Instant(c) && v.tag == tag
  {
    c, parts := Accepted(tag);
    NumeralIff(parts[0]);
    NumeralIff(parts[1]);
    NumeralIff(parts[2]);
  }

  /** The parser accepts exactly the tags that spell a version, and returns what they spell. */
  lemma ParsedIff(tag: string, v: Version)
    ensures ParseCalendar(tag) == Ok(v)
            <==> v.tag == tag && exists c, parts :: Spells(tag, c, v.sequence, v.app, parts) && v.date == Instant(c)
  {
    if ParseCalendar(tag) == Ok(v) {
      var c, parts := ParsedIsSpelled(tag);
    }
    if v.tag == tag {
      if c, parts :| Spells(tag, c, v.sequence, v.app, parts) && v.date == Instant(c) {
        SpelledIsParsed(tag, c, v.sequence, v.app, parts);
      }
    }
  }

  /** Days are 24 hours long, and the zero time is the start of year 1. */
  lemma InstantsOf(year: int, month: int, day: int)
    ensures Instant(Civil(year, month, day + 1)) == Instant(Civil(year, month, day)) + 24 * 3600 * 1_000_000_000
    ensures ZERO_TIME == Instant(Civil(1, 1, 1))
  {
    NewYear(1);
  }

  /** The alphabet of apps. */
  lemma AppAlphabet(c: char)
    ensures AppChar(c) <==> c in "abcdefghijklmnopqrstuvwxyz0123456789_.-"
  {
  }
}
