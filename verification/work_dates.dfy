/** The start-date key of a work-experience entry (the inner
    `getStartDateValue` of src/utils/workExperienceUtils.ts). */
module WorkDates {
  import opened Text
  import opened Wrappers

  /** The text before the first " - ", trimmed: a slice of the date that
      ends before the first separator (or the end, when there is none), with
      only whitespace cut on either side of it. */
  function StartPart(date: string): (r: string)
    ensures |r| <= |date|
    ensures |r| > 0 ==> !IsTrimSpace(r[0]) && !IsTrimSpace(r[|r| - 1])
    ensures exists cut: nat :: FirstSeparator(date, cut) && TrimmedWithin(date, cut, r)
  {
    TrimmedBeforeFirst(date);
    Trim(BeforeFirst(date, " - "))
  }

  /** `cut` is where the first " - " of `date` starts, or its length when
      there is none. */
  ghost predicate FirstSeparator(date: string, cut: nat) {
    && cut <= |date|
    && (cut == |date| || OccursAt(date, " - ", cut))
    && (forall i: nat :: i < cut ==> !OccursAt(date, " - ", i))
  }

  /** `r` is a slice of `date[..cut]` with only whitespace cut around it. */
  ghost predicate TrimmedWithin(date: string, cut: nat, r: string) {
    exists lead: nat, trail: nat {:trigger date[lead..trail]} ::
      && lead <= trail <= cut <= |date| && r == date[lead..trail]
      && (forall i :: 0 <= i < lead ==> IsTrimSpace(date[i]))
      && (forall i :: trail <= i < cut ==> IsTrimSpace(date[i]))
  }

  /** The slice facts `StartPart` promises, for its defining expression. */
  lemma TrimmedBeforeFirst(date: string)
    ensures var r := Trim(BeforeFirst(date, " - "));
      exists cut: nat :: FirstSeparator(date, cut) && TrimmedWithin(date, cut, r)
  {
    var b := BeforeFirst(date, " - ");
    var r := Trim(b);
    var lead: nat, trail: nat :| lead <= trail <= |b| && r == b[lead..trail]
      && (forall i :: 0 <= i < lead ==> IsTrimSpace(b[i]))
      && (forall i :: trail <= i < |b| ==> IsTrimSpace(b[i]));
    assert FirstSeparator(date, |b|);
    TrimmedPrefix(date, b, lead, trail);
  }

  /** A whitespace-trimmed slice of a prefix of `date` is one of `date`. */
  lemma TrimmedPrefix(date: string, b: string, lead: nat, trail: nat)
    requires |b| <= |date| && b == date[..|b|]
    requires lead <= trail <= |b|
    requires forall i :: 0 <= i < lead ==> IsTrimSpace(b[i])
    requires forall i :: trail <= i < |b| ==> IsTrimSpace(b[i])
    ensures TrimmedWithin(date, |b|, b[lead..trail])
  {
    forall i | 0 <= i < lead ensures IsTrimSpace(date[i]) {
      assert b[i] == date[i];
    }
    forall i | trail <= i < |b| ensures IsTrimSpace(date[i]) {
      assert b[i] == date[i];
    }
    assert b[lead..trail] == date[lead..trail];
  }

  /** The three capture groups of `^(\d{1,2})\/(\d{1,2})\/(\d{2})$`. */
  datatype DateMatch = DateMatch(month: string, day: string, year: string)

  /** The groups have the lengths and the digits the pattern demands. */
  predicate WellShaped(m: DateMatch) {
    && 1 <= |m.month| <= 2 && AllDigits(m.month)
    && 1 <= |m.day| <= 2 && AllDigits(m.day)
    && |m.year| == 2 && AllDigits(m.year)
  }

  /** The only strings the pattern accepts: the groups joined by slashes. */
  function Render(m: DateMatch): string {
    m.month + "/" + m.day + "/" + m.year
  }

  /** Where the groups and the slashes sit in a rendered date. */
  lemma RenderParts(m: DateMatch)
    ensures var s, a, b := Render(m), |m.month|, |m.day|;
      && |s| == a + b + 2 + |m.year|
      && s[..a] == m.month && s[a] == '/'
      && s[a + 1..a + 1 + b] == m.day && s[a + 1 + b] == '/'
      && s[a + b + 2..] == m.year
      && (forall i :: 0 <= i < a ==> s[i] == m.month[i])
      && (forall i :: 0 <= i < b ==> s[a + 1 + i] == m.day[i])
      && (forall i :: 0 <= i < |m.year| ==> s[a + b + 2 + i] == m.year[i])
  {
    var p1 := m.month + "/";
    var p2 := p1 + m.day;
    var p3 := p2 + "/";
    var s := Render(m);
    assert s == p3 + m.year;
    assert s[..|p3|] == p3 && s[|p3|..] == m.year;
    assert p3[..|p2|] == p2 && p2[..|p1|] == p1 && p2[|p1|..] == m.day;
  }

  /** Tries the match with a month group of `a` digits and a day group of
      `b` digits. */
  function MatchWith(s: string, a: nat, b: nat): (r: Option<DateMatch>)
    ensures r.Some? ==> WellShaped(r.value) && Render(r.value) == s
    ensures r.Some? ==> |r.value.month| == a && |r.value.day| == b
  {
    if 1 <= a <= 2 && 1 <= b <= 2 && |s| == a + b + 4 && s[a] == '/' && s[a + 1 + b] == '/'
      && AllDigits(s[..a]) && AllDigits(s[a + 1..a + 1 + b]) && AllDigits(s[a + b + 2..])
    then
      var m := DateMatch(s[..a], s[a + 1..a + 1 + b], s[a + b + 2..]);
      assert Render(m) == s;
      Some(m)
    else None
  }

  /** The date pattern: the whole string is `M(M)/D(D)/YY` in ASCII digits. */
  function MatchDate(s: string): (r: Option<DateMatch>)
    ensures r.Some? ==> WellShaped(r.value) && Render(r.value) == s
  {
    match MatchWith(s, 1, 1)
    case Some(m) => Some(m)
    case None =>
      match MatchWith(s, 1, 2)
      case Some(m) => Some(m)
      case None =>
        match MatchWith(s, 2, 1)
        case Some(m) => Some(m)
        case None => MatchWith(s, 2, 2)
  }

  /** Every string the pattern describes is matched, with its own groups. */
  lemma MatchDateComplete(m: DateMatch)
    requires WellShaped(m)
    ensures MatchDate(Render(m)) == Some(m)
  {
    var s := Render(m);
    var a, b := |m.month|, |m.day|;
    RenderParts(m);
    assert MatchWith(s, a, b) == Some(m);
    // A shorter month or day group would put a digit where a slash must be.
    if a == 2 {
      assert IsDigit(s[1]);
    }
    if b == 2 {
      assert IsDigit(s[a + 2]);
      assert IsDigit(s[a + 1 + 1]);
    }
  }

  /** The two-digit year pivot: 00..30 are 2000..2030, 31..99 are 1931..1999. */
  function FullYear(yy: nat): (y: nat)
    requires yy < 100
    ensures yy <= 30 ==> y == 2000 + yy
    ensures yy > 30 ==> y == 1900 + yy
    ensures 1931 <= y <= 2030
    ensures y % 100 == yy
  {
    if yy <= 30 then yy + 2000 else yy + 1900
  }

  /** `year * 365 + month * 30 + day`, without any range check. */
  function DayKey(year: nat, month: nat, day: nat): nat {
    year * 365 + month * 30 + day
  }

  /** Key of a matched date. */
  function KeyOfMatch(m: DateMatch): nat
    requires WellShaped(m)
  {
    DayKey(FullYear(DecimalValue(m.year)), DecimalValue(m.month), DecimalValue(m.day))
  }

  /** `\b(20\d{2})\b` matches at position `i`: a `20dd` with no word
      character directly before or after it. */
  predicate YearAt(s: string, i: nat) {
    && i + 4 <= |s|
    && s[i] == '2' && s[i + 1] == '0' && IsDigit(s[i + 2]) && IsDigit(s[i + 3])
    && (i == 0 || !IsWordChar(s[i - 1]))
    && (i + 4 == |s| || !IsWordChar(s[i + 4]))
  }

  /** The leftmost match position at or after `from`. */
  function FindYearFrom(s: string, from: nat): (r: Option<nat>)
    ensures r.Some? ==> from <= r.value && YearAt(s, r.value)
    ensures r.Some? ==> forall j: nat :: from <= j < r.value ==> !YearAt(s, j)
    ensures r.None? ==> forall j: nat :: from <= j ==> !YearAt(s, j)
    decreases |s| - from
  {
    if from + 4 > |s| then None
    else if YearAt(s, from) then Some(from)
    else FindYearFrom(s, from + 1)
  }

  /** `parseInt` of the year the fallback pattern captures: "20" followed
      by the two digits after it, so 2000 .. 2099. */
  function YearValueAt(s: string, i: nat): (y: nat)
    requires YearAt(s, i)
    ensures 2000 <= y <= 2099
    ensures y == 2000 + DigitValue(s[i + 2]) * 10 + DigitValue(s[i + 3])
  {
    var d := s[i..i + 4];
    assert d[0] == '2' && d[1] == '0' && d[2] == s[i + 2] && d[3] == s[i + 3];
    assert d[..1][..0] == [] && d[..1][0] == '2';
    assert DecimalValue(d[..1]) == 2;
    assert d[..2][..1] == d[..1] && d[..2][1] == '0';
    assert DecimalValue(d[..2]) == 20;
    assert d[..3][..2] == d[..2] && d[..3][2] == s[i + 2];
    assert DecimalValue(d[..3]) == 200 + DigitValue(s[i + 2]);
    assert d[..4][..3] == d[..3] && d[..4] == d;
    DecimalValue(d)
  }

  /** `getStartDateValue`: 0 for an empty start part; the day key for an
      `M(M)/D(D)/YY` start part; `year * 365` for the first word-bounded
      `20dd` year; 0 otherwise. Every key is 0 or at least the key of a day
      in 1931. */
  function StartDateValue(date: string): (v: nat)
    ensures v == 0 || v >= 1931 * 365
    ensures v == 0 <==> MatchDate(StartPart(date)).None? && FindYearFrom(StartPart(date), 0).None?
  {
    var start := StartPart(date);
    NothingMatchesEmpty();
    if |start| == 0 then 0
    else match MatchDate(start)
      case Some(m) => KeyOfMatch(m)
      case None =>
        match FindYearFrom(start, 0)
        case Some(i) => YearValueAt(start, i) * 365
        case None => 0
  }

  /** The empty start part neither is a date nor holds a year. */
  lemma NothingMatchesEmpty()
    ensures MatchDate("").None? && FindYearFrom("", 0).None?
  {
    if MatchDate("").Some? {
      RenderParts(MatchDate("").value);
    }
  }

  /** A start part that holds no `" - "`, has no surrounding space and is
      followed by `" - "` and anything at all is the start part. */
  lemma StartPartOfRange(start: string, rest: string)
    requires forall i: nat :: !OccursAt(start + " - " + rest, " - ", i) || i >= |start|
    requires |start| > 0 ==> !IsTrimSpace(start[0]) && !IsTrimSpace(start[|start| - 1])
    ensures StartPart(start + " - " + rest) == start
  {
    var s := start + " - " + rest;
    assert OccursAt(s, " - ", |start|) by {
      assert s[|start|..|start| + 3] == " - ";
    }
    var b := BeforeFirst(s, " - ");
    assert |b| == |start|;
    assert b == start;
    TrimNoSpace(start);
  }

  /** Trimming a string that starts and ends with non-space leaves it alone. */
  lemma TrimNoSpace(s: string)
    requires |s| > 0 ==> !IsTrimSpace(s[0]) && !IsTrimSpace(s[|s| - 1])
    ensures Trim(s) == s
  {
  }

  /** A rendered date contains no space, so it has no `" - "` and nothing to trim. */
  lemma RenderedHasNoSpace(m: DateMatch)
    requires WellShaped(m)
    ensures forall i :: 0 <= i < |Render(m)| ==> Render(m)[i] != ' ' && !IsTrimSpace(Render(m)[i])
  {
    var s := Render(m);
    var a, b := |m.month|, |m.day|;
    RenderParts(m);
    forall i | 0 <= i < |s| ensures s[i] != ' ' && !IsTrimSpace(s[i]) {
      if i < a {
        assert IsDigit(m.month[i]);
      } else if a < i < a + 1 + b {
        assert s[a + 1 + (i - a - 1)] == m.day[i - a - 1];
        assert IsDigit(m.day[i - a - 1]);
      } else if a + 1 + b < i {
        assert s[a + b + 2 + (i - a - b - 2)] == m.year[i - a - b - 2];
        assert IsDigit(m.year[i - a - b - 2]);
      }
    }
  }

  /** An entry dated `M(M)/D(D)/YY - <anything>` gets the day key of its
      start date, with the two-digit year pivot applied. */
  lemma StartDateValueOfDate(m: DateMatch, rest: string)
    requires WellShaped(m)
    ensures StartDateValue(Render(m) + " - " + rest) ==
      DayKey(FullYear(DecimalValue(m.year)), DecimalValue(m.month), DecimalValue(m.day))
  {
    var start := Render(m);
    RenderedHasNoSpace(m);
    NoSeparatorBefore(start, rest);
    StartPartOfRange(start, rest);
    MatchDateComplete(m);
  }

  /** A start part without a space holds no `" - "`, so the first one is
      the one after it. */
  lemma NoSeparatorBefore(start: string, rest: string)
    requires forall i :: 0 <= i < |start| ==> start[i] != ' '
    ensures forall i: nat :: !OccursAt(start + " - " + rest, " - ", i) || i >= |start|
  {
    var s := start + " - " + rest;
    forall i: nat | i < |start| ensures !OccursAt(s, " - ", i) {
      if i + 3 <= |s| {
        assert s[i..i + 3][0] == s[i] == start[i];
      }
    }
  }

  /** A start part that is empty or only whitespace gives key 0. */
  lemma BlankStartIsZero(blank: string, rest: string)
    requires forall i :: 0 <= i < |blank| ==> IsTrimSpace(blank[i])
    ensures StartDateValue(blank + " - " + rest) == 0
  {
    var s := blank + " - " + rest;
    forall i: nat | i < |blank| ensures !OccursAt(s, " - ", i) {
      if i + 3 <= |s| {
        assert s[i..i + 3][1] == s[i + 1];
        if i + 1 < |blank| {
          assert s[i + 1] == blank[i + 1];
        } else {
          assert s[i + 1] == ' ';
        }
      }
    }
    assert OccursAt(s, " - ", |blank|) by {
      assert s[|blank|..|blank| + 3] == " - ";
    }
    var b := BeforeFirst(s, " - ");
    assert b == blank;
  }

  /** For real calendar months and days, a later four-digit year always
      gives a strictly larger day key. */
  lemma LaterYearLargerKey(y1: nat, m1: nat, d1: nat, y2: nat, m2: nat, d2: nat)
    requires 1 <= m1 <= 12 && 1 <= d1 <= 31
    requires 1 <= m2 <= 12 && 1 <= d2 <= 31
    requires y1 < y2
    ensures DayKey(y1, m1, d1) < DayKey(y2, m2, d2)
  {
  }

  /** No range check: month 13, day 40 still parses. */
  lemma NoRangeCheck(rest: string)
    ensures StartDateValue("13/40/23 - " + rest) == 2023 * 365 + 13 * 30 + 40
  {
    assert "13/40/23 - " + rest == Render(DateMatch("13", "40", "23")) + " - " + rest;
    StartDateValueOfDate(DateMatch("13", "40", "23"), rest);
  }

  /** The day key of `M(M)/D(D)/YY - <anything>` for literal groups. */
  lemma LiteralDateKey(month: string, day: string, year: string, rest: string, key: nat)
    requires WellShaped(DateMatch(month, day, year))
    requires key == DayKey(FullYear(DecimalValue(year)), DecimalValue(month), DecimalValue(day))
    ensures StartDateValue(month + "/" + day + "/" + year + " - " + rest) == key
  {
    StartDateValueOfDate(DateMatch(month, day, year), rest);
  }

  /** "1/31/23" keys as 2023 * 365 + 30 + 31. */
  lemma JanuaryThirtyFirstKey(rest: string)
    ensures StartDateValue("1/31/23 - " + rest) == 2023 * 365 + 61
  {
    assert "1" + "/" + "31" + "/" + "23" + " - " + rest == "1/31/23 - " + rest;
    LiteralDateKey("1", "31", "23", rest, 2023 * 365 + 61);
  }

  /** "2/1/23" keys as 2023 * 365 + 60 + 1. */
  lemma FebruaryFirstKey(rest: string)
    ensures StartDateValue("2/1/23 - " + rest) == 2023 * 365 + 61
  {
    assert "2" + "/" + "1" + "/" + "23" + " - " + rest == "2/1/23 - " + rest;
    LiteralDateKey("2", "1", "23", rest, 2023 * 365 + 61);
  }

  /** Keys collide: January 31st and February 1st of one year share a key. */
  lemma KeysCollide(rest: string)
    ensures StartDateValue("1/31/23 - " + rest) == StartDateValue("2/1/23 - " + rest)
  {
    JanuaryThirtyFirstKey(rest);
    FebruaryFirstKey(rest);
  }

  /** Year 30 is read as 2030. */
  lemma YearThirtyIs2030(rest: string)
    ensures StartDateValue("1/1/30 - " + rest) == 2030 * 365 + 31
  {
    assert "1" + "/" + "1" + "/" + "30" + " - " + rest == "1/1/30 - " + rest;
    LiteralDateKey("1", "1", "30", rest, 2030 * 365 + 31);
  }

  /** Year 31 is read as 1931. */
  lemma YearThirtyOneIs1931(rest: string)
    ensures StartDateValue("1/1/31 - " + rest) == 1931 * 365 + 31
  {
    assert "1" + "/" + "1" + "/" + "31" + " - " + rest == "1/1/31 - " + rest;
    LiteralDateKey("1", "1", "31", rest, 1931 * 365 + 31);
  }

  /** The first word-bounded `20dd` of "08/17/2023" starts at position 6. */
  lemma YearOfSlashedFourDigitDate()
    ensures MatchDate("08/17/2023").None?
    ensures FindYearFrom("08/17/2023", 0) == Some(6)
    ensures YearValueAt("08/17/2023", 6) == 2023
  {
    var start := "08/17/2023";
    assert YearAt(start, 6);
    assert !YearAt(start, 0) && !YearAt(start, 1) && !YearAt(start, 2);
    assert !YearAt(start, 3) && !YearAt(start, 4) && !YearAt(start, 5);
  }

  /** A four-digit year falls back to the year pattern: "08/17/2023" keys as
      2023 * 365, with month and day ignored. */
  lemma FourDigitYearFallsBack(rest: string)
    ensures StartDateValue("08/17/2023 - " + rest) == 2023 * 365
  {
    SlashedYearFallback(rest);
    SlashedYearJoin(rest);
  }

  /** The literal "08/17/2023 - " is the start part joined to the separator;
      kept apart so that the key proof never unfolds the literal. */
  lemma SlashedYearJoin(rest: string)
    ensures "08/17/2023" + " - " + rest == "08/17/2023 - " + rest
  {
  }

  /** The same key, with the start part and the separator still apart. */
  lemma SlashedYearFallback(rest: string)
    ensures StartDateValue("08/17/2023" + " - " + rest) == 2023 * 365
  {
    YearOfSlashedFourDigitDate();
    SlashedSpaceless("08/17/2023");
    NoSeparatorBefore("08/17/2023", rest);
    YearFallback("08/17/2023", rest, 6);
  }

  /** Digits are neither spaces nor trimmed. */
  lemma AllDigitsSpaceless(s: string)
    requires AllDigits(s)
    ensures forall k :: 0 <= k < |s| ==> s[k] != ' ' && !IsTrimSpace(s[k])
  {
  }

  /** Digits and slashes are neither spaces nor trimmed. */
  lemma SlashedSpaceless(s: string)
    requires forall k :: 0 <= k < |s| ==> IsDigit(s[k]) || s[k] == '/'
    ensures forall k :: 0 <= k < |s| ==> s[k] != ' ' && !IsTrimSpace(s[k])
  {
  }

  /** A start part that is no `M(M)/D(D)/YY` date keys as the first
      word-bounded year in it, times 365. */
  lemma YearFallback(start: string, rest: string, i: nat)
    requires forall k: nat :: !OccursAt(start + " - " + rest, " - ", k) || k >= |start|
    requires |start| > 0 ==> !IsTrimSpace(start[0]) && !IsTrimSpace(start[|start| - 1])
    requires MatchDate(start).None? && FindYearFrom(start, 0) == Some(i)
    ensures StartDateValue(start + " - " + rest) == YearValueAt(start, i) * 365
  {
    StartPartOfRange(start, rest);
  }

  /** A start part that is neither a date nor holds a word-bounded year
      keys as 0. */
  lemma NoYearIsZero(start: string, rest: string)
    requires forall k: nat :: !OccursAt(start + " - " + rest, " - ", k) || k >= |start|
    requires |start| > 0 ==> !IsTrimSpace(start[0]) && !IsTrimSpace(start[|start| - 1])
    requires MatchDate(start).None? && FindYearFrom(start, 0).None?
    ensures StartDateValue(start + " - " + rest) == 0
  {
    StartPartOfRange(start, rest);
  }

  /** A month written as a word: "Aug 2023" keys as 2023 * 365. */
  lemma MonthNameYearKey(rest: string)
    ensures StartDateValue("Aug 2023 - " + rest) == 2023 * 365
  {
    var start := "Aug 2023";
    var s := start + " - " + rest;
    assert s == "Aug 2023 - " + rest;
    forall k: nat | k < |start| ensures !OccursAt(s, " - ", k) {
      if k + 3 <= |s| {
        assert s[k..k + 3][1] == s[k + 1];
      }
    }
    assert YearAt(start, 4);
    assert !YearAt(start, 0) && !YearAt(start, 1) && !YearAt(start, 2) && !YearAt(start, 3);
    YearFallback(start, rest, 4);
  }

  /** "12/20/23" keys as 2023 * 365 + 360 + 20. */
  lemma LateDecemberKey(rest: string)
    ensures StartDateValue("12/20/23 - " + rest) == 2023 * 365 + 380
  {
    assert "12" + "/" + "20" + "/" + "23" + " - " + rest == "12/20/23 - " + rest;
    LiteralDateKey("12", "20", "23", rest, 2023 * 365 + 380);
  }

  /** A bare "2024" keys as 2024 * 365 through the fallback. */
  lemma BareYearKey(rest: string)
    ensures StartDateValue("2024 - " + rest) == 2024 * 365
  {
    BareYearFallback(rest);
    BareYearJoin(rest);
  }

  /** The literal "2024 - " is the start part joined to the separator; kept
      apart so that the key proof never unfolds the literal. */
  lemma BareYearJoin(rest: string)
    ensures "2024" + " - " + rest == "2024 - " + rest
  {
  }

  /** The same key, with the start part and the separator still apart. */
  lemma BareYearFallback(rest: string)
    ensures StartDateValue("2024" + " - " + rest) == 2024 * 365
  {
    BareYearMatch();
    AllDigitsSpaceless("2024");
    NoSeparatorBefore("2024", rest);
    YearFallback("2024", rest, 0);
  }

  /** "2024" is no `M(M)/D(D)/YY` date, and its year pattern matches at 0. */
  lemma BareYearMatch()
    ensures MatchDate("2024").None?
    ensures FindYearFrom("2024", 0) == Some(0)
    ensures YearValueAt("2024", 0) == 2024
  {
    assert YearAt("2024", 0);
  }

  /** Across the two formats the keys are not ordered by date: a December
      start written `MM/DD/YY` outranks a bare later year. */
  lemma DecemberOutranksNextBareYear(rest: string)
    ensures StartDateValue("12/20/23 - " + rest) > StartDateValue("2024 - " + rest)
  {
    LateDecemberKey(rest);
    BareYearKey(rest);
  }
}
