/**
 * The rule-record builder of the availability loader: from the cells of one
 * availability row (already read from the sheet) to the lecturer's rule
 * record, and the loop that files the records by lecturer name.
 *
 * Text handling is ASCII: case mapping, whitespace and digits are those of
 * the ASCII range.
 */
module Availability {
  import opened Wrappers
  import opened Config
  import opened Model

  /** A cell as the builder sees it: text, or anything else (a number, an empty cell). */
  datatype Cell = Text(text: string) | NotText

  /**
   * One availability row: the `Name` cell (None when empty or missing), the
   * `Available Day` and `Available Times` cells (a missing column reads as
   * the text "All"), and the `Max Sks Harian` cell after integer conversion
   * (None when empty or not convertible).
   */
  datatype AvailabilityRow = AvailabilityRow(
    name: Option<string>,
    availableDay: Cell,
    availableTimes: Cell,
    maxSksDaily: Option<int>)

  /** One extracted window: the two HH:MM texts of an HH:MM-HH:MM match. */
  datatype ClockPair = ClockPair(from: string, to: string)

  /** The record of a lecturer as the loader files it, times still as text. */
  datatype RawRule = RawRule(
    days: Option<seq<string>>,
    timeRanges: Option<seq<ClockPair>>,
    maxSksDaily: Option<int>)

  // ---------------------------------------------------------------------
  // Characters

  predicate IsSpace(c: char)
  {
    c == ' ' || (9 <= c as int <= 13) || (28 <= c as int <= 31)
  }

  predicate IsUpper(c: char)
  {
    'A' <= c <= 'Z'
  }

  predicate IsLower(c: char)
  {
    'a' <= c <= 'z'
  }

  predicate IsCased(c: char)
  {
    IsUpper(c) || IsLower(c)
  }

  predicate IsDigit(c: char)
  {
    '0' <= c <= '9'
  }

  function ToLower(c: char): char
  {
    if IsUpper(c) then (c as int + 32) as char else c
  }

  function ToUpper(c: char): char
  {
    if IsLower(c) then (c as int - 32) as char else c
  }

  // ---------------------------------------------------------------------
  // Case mapping

  /** Lower-casing, character by character. */
  function LowerStr(s: string): (r: string)
    ensures |r| == |s| && forall i :: 0 <= i < |s| ==> r[i] == ToLower(s[i])
  {
    if s == [] then [] else [ToLower(s[0])] + LowerStr(s[1..])
  }

  /** The text is "all" in any capitalisation. */
  predicate IsAll(s: string)
    ensures IsAll(s) <==> |s| == 3 && ToLower(s[0]) == 'a' && ToLower(s[1]) == 'l' && ToLower(s[2]) == 'l'
  {
    LowerStr(s) == "all"
  }

  /**
   * `str.title()` from a given state: a cased character after a cased one
   * is lowered, any other character is raised; `prevCased` tells whether
   * the character before s was cased.
   */
  function TitleFrom(s: string, prevCased: bool): string
  {
    if s == [] then []
    else
      var c := if prevCased then ToLower(s[0]) else ToUpper(s[0]);
      [c] + TitleFrom(s[1..], IsCased(c))
  }

  /** Title-casing: the first letter of each run of cased characters raised, the rest lowered. */
  function Title(s: string): (t: string)
    ensures LowerStr(t) == LowerStr(s)
  {
    TitleKeepsLetters(s, false);
    TitleFrom(s, false)
  }

  /** Title casing looks at letters only up to case: it ignores the input's capitalisation. */
  lemma {:induction false} TitleIgnoresCase(s: string, prevCased: bool)
    ensures TitleFrom(LowerStr(s), prevCased) == TitleFrom(s, prevCased)
  {
    if s != [] {
      var l := LowerStr(s);
      assert l[0] == ToLower(s[0]) && l[1..] == LowerStr(s[1..]);
      var c := if prevCased then ToLower(s[0]) else ToUpper(s[0]);
      var c' := if prevCased then ToLower(l[0]) else ToUpper(l[0]);
      assert c' == c;
      TitleIgnoresCase(s[1..], IsCased(c));
    }
  }

  /** Title casing changes case only: the lowered text is unchanged. */
  lemma {:induction false} TitleKeepsLetters(s: string, prevCased: bool)
    ensures LowerStr(TitleFrom(s, prevCased)) == LowerStr(s)
  {
    if s != [] {
      var c := if prevCased then ToLower(s[0]) else ToUpper(s[0]);
      var t := TitleFrom(s, prevCased);
      assert t[0] == c && t[1..] == TitleFrom(s[1..], IsCased(c));
      TitleKeepsLetters(s[1..], IsCased(c));
    }
  }

  /** Title casing twice is title casing once. */
  lemma TitleIdempotent(s: string)
    ensures Title(Title(s)) == Title(s)
  {
    TitleIgnoresCase(Title(s), false);
    TitleKeepsLetters(s, false);
    TitleIgnoresCase(s, false);
  }

  /** A run of lower-case letters after a cased character is left as it is. */
  lemma {:induction false} LowerRunTitled(s: string)
    requires forall k :: 0 <= k < |s| ==> IsLower(s[k])
    ensures TitleFrom(s, true) == s
  {
    if s != [] {
      LowerRunTitled(s[1..]);
    }
  }

  /** A capital letter followed by lower-case letters is its own title case. */
  lemma CapitalisedTitled(s: string)
    requires s != [] && IsUpper(s[0])
    requires forall k :: 1 <= k < |s| ==> IsLower(s[k])
    ensures Title(s) == s
  {
    LowerRunTitled(s[1..]);
  }

  /** A processing day name: a capitalised word without commas or spaces. */
  lemma DayNameFacts(d: string)
    requires d in DAYS
    ensures d != [] && IsUpper(d[0]) && !IsSpace(d[|d| - 1])
    ensures forall k :: 1 <= k < |d| ==> IsLower(d[k])
    ensures ',' !in d
  {
  }

  /** The processing day names are their own title case and strip to themselves. */
  lemma DayNamesAreTitled(d: string)
    requires d in DAYS
    ensures Title(d) == d && Strip(d) == d
  {
    DayNameFacts(d);
    CapitalisedTitled(d);
    StripTrimmed(d);
  }

  /** A day name written in any capitalisation title-cases to the day name itself. */
  lemma DayNameNormalises(s: string, d: string)
    requires d in DAYS
    requires LowerStr(s) == LowerStr(d)
    ensures Title(s) == d
  {
    TitleIgnoresCase(s, false);
    TitleIgnoresCase(d, false);
    DayNamesAreTitled(d);
  }

  // ---------------------------------------------------------------------
  // Splitting on commas

  /** The position of the first comma. */
  function IndexOfComma(s: string): (i: nat)
    requires ',' in s
    ensures i < |s| && s[i] == ','
    ensures forall k :: 0 <= k < i ==> s[k] != ','
  {
    if s[0] == ',' then 0 else 1 + IndexOfComma(s[1..])
  }

  /** `str.split(',')`: the pieces between commas, at least one, none holding a comma. */
  function Split(s: string): (parts: seq<string>)
    ensures |parts| >= 1
    ensures forall i :: 0 <= i < |parts| ==> ',' !in parts[i]
    decreases |s|
  {
    if ',' !in s then [s]
    else
      var i := IndexOfComma(s);
      [s[..i]] + Split(s[i + 1..])
  }

  /** `','.join(parts)`. */
  function Join(parts: seq<string>): string
  {
    if parts == [] then ""
    else if |parts| == 1 then parts[0]
    else parts[0] + "," + Join(parts[1..])
  }

  /** Joining the pieces of a split gives back the text. */
  lemma {:induction false} JoinSplit(s: string)
    ensures Join(Split(s)) == s
    decreases |s|
  {
    if ',' in s {
      var i := IndexOfComma(s);
      var rest := Split(s[i + 1..]);
      assert Split(s) == [s[..i]] + rest;
      assert (([s[..i]] + rest)[1..]) == rest;
      JoinSplit(s[i + 1..]);
      assert s == s[..i] + "," + s[i + 1..];
    }
  }

  /** In a comma-free piece followed by a comma, that comma is the first one. */
  lemma FirstCommaAfter(p: string, rest: string)
    requires ',' !in p
    ensures ',' in p + "," + rest
    ensures IndexOfComma(p + "," + rest) == |p|
    ensures (p + "," + rest)[..|p|] == p && (p + "," + rest)[|p| + 1..] == rest
  {
    var s := p + "," + rest;
    assert s[|p|] == ',';
  }

  /** Splitting the join of comma-free pieces gives back the pieces. */
  lemma {:induction false} SplitJoin(parts: seq<string>)
    requires |parts| >= 1
    requires forall i :: 0 <= i < |parts| ==> ',' !in parts[i]
    ensures Split(Join(parts)) == parts
  {
    if |parts| > 1 {
      var rest := parts[1..];
      var joined := Join(rest);
      var s := parts[0] + "," + joined;
      assert Join(parts) == s;
      FirstCommaAfter(parts[0], joined);
      assert Split(s) == [parts[0]] + Split(joined);
      SplitJoin(rest);
      assert parts == [parts[0]] + rest;
    }
  }

  // ---------------------------------------------------------------------
  // Stripping whitespace

  /** The number of whitespace characters at the front. */
  function LeadingSpaces(s: string): (n: nat)
    ensures n <= |s|
    ensures forall k :: 0 <= k < n ==> IsSpace(s[k])
    ensures n < |s| ==> !IsSpace(s[n])
  {
    if s != [] && IsSpace(s[0]) then 1 + LeadingSpaces(s[1..]) else 0
  }

  /** The number of whitespace characters at the back. */
  function TrailingSpaces(s: string): (n: nat)
    ensures n <= |s|
    ensures forall k :: |s| - n <= k < |s| ==> IsSpace(s[k])
    ensures n < |s| ==> !IsSpace(s[|s| - 1 - n])
  {
    if s != [] && IsSpace(s[|s| - 1]) then 1 + TrailingSpaces(s[..|s| - 1]) else 0
  }

  /** `str.strip()`: the text without its leading and trailing whitespace. */
  function Strip(s: string): (r: string)
    ensures r != [] ==> !IsSpace(r[0]) && !IsSpace(r[|r| - 1])
  {
    var rest := s[LeadingSpaces(s)..];
    rest[..|rest| - TrailingSpaces(rest)]
  }

  /**
   * The stripped text is an infix of the text, and everything cut off at
   * either end is whitespace; i is where the infix starts.
   */
  lemma StripIsTrimmedInfix(s: string) returns (i: nat)
    ensures i + |Strip(s)| <= |s| && Strip(s) == s[i..i + |Strip(s)|]
    ensures forall k :: 0 <= k < i ==> IsSpace(s[k])
    ensures forall k :: i + |Strip(s)| <= k < |s| ==> IsSpace(s[k])
  {
    i := LeadingSpaces(s);
    var rest := s[i..];
    var r := Strip(s);
    assert r == s[i..i + |r|];
    forall k | i + |r| <= k < |s| ensures IsSpace(s[k]) {
      assert s[k] == rest[k - i];
    }
  }

  /** A text without whitespace at either end strips to itself. */
  lemma StripTrimmed(s: string)
    requires s != [] ==> !IsSpace(s[0]) && !IsSpace(s[|s| - 1])
    ensures Strip(s) == s
  {
    assert LeadingSpaces(s) == 0;
    assert TrailingSpaces(s) == 0;
  }

  /** Stripping twice is stripping once. */
  lemma StripIdempotent(s: string)
    ensures Strip(Strip(s)) == Strip(s)
  {
    StripTrimmed(Strip(s));
  }

  // ---------------------------------------------------------------------
  // The day list

  /** Each comma-separated piece, stripped and title-cased. */
  function NormaliseAll(parts: seq<string>): (days: seq<string>)
    ensures |days| == |parts|
    ensures forall i :: 0 <= i < |parts| ==> days[i] == Title(Strip(parts[i]))
  {
    if parts == [] then [] else [Title(Strip(parts[0]))] + NormaliseAll(parts[1..])
  }

  /**
   * The day list of a days cell: the text cut at every comma, each piece
   * stripped of surrounding whitespace and title-cased.
   */
  function ParseDays(s: string): (days: seq<string>)
    ensures |days| == |Split(s)| >= 1
    ensures forall i :: 0 <= i < |days| ==> LowerStr(days[i]) == LowerStr(Strip(Split(s)[i]))
  {
    NormaliseAll(Split(s))
  }

  /** A comma-joined list of processing day names parses back to that list. */
  lemma DayListRoundTrip(ds: seq<string>)
    requires |ds| >= 1
    requires forall i :: 0 <= i < |ds| ==> ds[i] in DAYS
    ensures ParseDays(Join(ds)) == ds
  {
    forall i | 0 <= i < |ds| ensures ',' !in ds[i] && Title(Strip(ds[i])) == ds[i] {
      DayNameFacts(ds[i]);
      DayNamesAreTitled(ds[i]);
    }
    SplitJoin(ds);
    NormalisedFixed(ds);
  }

  /** Pieces that are already stripped and title-cased normalise to themselves. */
  lemma NormalisedFixed(parts: seq<string>)
    requires forall i :: 0 <= i < |parts| ==> Title(Strip(parts[i])) == parts[i]
    ensures NormaliseAll(parts) == parts
  {
  }

  /** Pieces naming processing days in any capitalisation and spacing parse to those days. */
  lemma DayListNormalises(s: string, ds: seq<string>)
    requires |Split(s)| == |ds|
    requires forall i :: 0 <= i < |ds| ==> ds[i] in DAYS
    requires forall i :: 0 <= i < |ds| ==> LowerStr(Strip(Split(s)[i])) == LowerStr(ds[i])
    ensures ParseDays(s) == ds
  {
    forall i | 0 <= i < |ds| ensures ParseDays(s)[i] == ds[i] {
      DayNameNormalises(Strip(Split(s)[i]), ds[i]);
    }
  }

  // ---------------------------------------------------------------------
  // Extracting HH:MM-HH:MM windows

  /** The text has the shape of two digits, a colon and two digits. */
  predicate IsClockText(t: string)
  {
    |t| == 5 && IsDigit(t[0]) && IsDigit(t[1]) && t[2] == ':' && IsDigit(t[3]) && IsDigit(t[4])
  }

  /** An `\d{2}:\d{2}-\d{2}:\d{2}` match starts at position i. */
  predicate RangeAt(s: string, i: nat)
  {
    i + 11 <= |s| && IsClockText(s[i..i + 5]) && s[i + 5] == '-' && IsClockText(s[i + 6..i + 11])
  }

  /**
   * The start positions of the matches a left-to-right scan from `from`
   * finds, each resuming after the previous match: increasing, at least a
   * match-length apart.
   */
  function MatchStarts(s: string, from: nat): (ps: seq<nat>)
    ensures forall j :: 0 <= j < |ps| ==> from <= ps[j] && ps[j] + 11 <= |s|
    ensures forall j :: 0 <= j < |ps| - 1 ==> ps[j] + 11 <= ps[j + 1]
    decreases |s| - from
  {
    if from + 11 > |s| then []
    else if RangeAt(s, from) then [from] + MatchStarts(s, from + 11)
    else MatchStarts(s, from + 1)
  }

  /** The scan reports only matches: a range pattern starts at every position it found. */
  lemma {:induction false} MatchStartsFound(s: string, from: nat)
    ensures forall j :: 0 <= j < |MatchStarts(s, from)| ==> RangeAt(s, MatchStarts(s, from)[j])
    decreases |s| - from
  {
    if from + 11 <= |s| {
      if RangeAt(s, from) {
        var rest := MatchStarts(s, from + 11);
        MatchStartsFound(s, from + 11);
        assert MatchStarts(s, from) == [from] + rest;
      } else {
        MatchStartsFound(s, from + 1);
      }
    }
  }

  /** The scan misses nothing: every match position lies inside a match it found. */
  lemma {:induction false} MatchStartsComplete(s: string, from: nat, q: nat)
    requires from <= q && RangeAt(s, q)
    ensures exists j :: 0 <= j < |MatchStarts(s, from)| && MatchStarts(s, from)[j] <= q < MatchStarts(s, from)[j] + 11
    decreases |s| - from
  {
    var ps := MatchStarts(s, from);
    assert from + 11 <= |s|;
    if RangeAt(s, from) {
      var rest := MatchStarts(s, from + 11);
      assert ps == [from] + rest;
      if q < from + 11 {
        assert ps[0] == from;
      } else {
        MatchStartsComplete(s, from + 11, q);
        var j :| 0 <= j < |rest| && rest[j] <= q < rest[j] + 11;
        assert ps[j + 1] == rest[j];
      }
    } else {
      assert q != from;
      assert ps == MatchStarts(s, from + 1);
      MatchStartsComplete(s, from + 1, q);
    }
  }

  /** The window texts at the given match positions. */
  function PairsAt(s: string, ps: seq<nat>): (pairs: seq<ClockPair>)
    requires forall j :: 0 <= j < |ps| ==> ps[j] + 11 <= |s|
    ensures |pairs| == |ps|
    ensures forall j :: 0 <= j < |ps| ==> pairs[j] == ClockPair(s[ps[j]..ps[j] + 5], s[ps[j] + 6..ps[j] + 11])
  {
    if ps == [] then []
    else [ClockPair(s[ps[0]..ps[0] + 5], s[ps[0] + 6..ps[0] + 11])] + PairsAt(s, ps[1..])
  }

  /**
   * The time ranges found in a text: scanning left to right, every
   * non-overlapping occurrence of two-digit:two-digit, a dash, and
   * two-digit:two-digit, given as its two clock texts, in order.
   */
  function FindRanges(s: string): (pairs: seq<ClockPair>)
    ensures |pairs| == |MatchStarts(s, 0)|
    ensures forall j :: 0 <= j < |pairs| ==>
      pairs[j] == ClockPair(s[MatchStarts(s, 0)[j]..MatchStarts(s, 0)[j] + 5],
                            s[MatchStarts(s, 0)[j] + 6..MatchStarts(s, 0)[j] + 11])
    ensures forall j :: 0 <= j < |pairs| ==> IsClockText(pairs[j].from) && IsClockText(pairs[j].to)
  {
    var ps := MatchStarts(s, 0);
    MatchStartsFound(s, 0);
    PairsAt(s, ps)
  }

  // ---------------------------------------------------------------------
  // Clock texts

  function DigitValue(c: char): nat
    requires IsDigit(c)
  {
    c as int - '0' as int
  }

  function DigitChar(n: nat): char
    requires n < 10
  {
    ('0' as int + n) as char
  }

  /**
   * `strptime(t, "%H:%M")` on a two-digit-hour text, in minutes since
   * midnight: None when the hour passes 23 or the minute 59, and for texts
   * of another shape, which the extraction never yields.
   */
  function ClockMinutes(t: string): (m: Option<int>)
    ensures m.Some? ==> 0 <= m.value < 24 * 60
  {
    if !IsClockText(t) then None
    else
      var h := 10 * DigitValue(t[0]) + DigitValue(t[1]);
      var mm := 10 * DigitValue(t[3]) + DigitValue(t[4]);
      if h <= 23 && mm <= 59 then Some(60 * h + mm) else None
  }

  /** `strftime("%H:%M")` of a time of day in minutes. */
  function FormatClock(m: int): (t: string)
    requires 0 <= m < 24 * 60
    ensures IsClockText(t)
  {
    var h := m / 60;
    var mm := m % 60;
    [DigitChar(h / 10), DigitChar(h % 10), ':', DigitChar(mm / 10), DigitChar(mm % 10)]
  }

  /** Reading a formatted time gives back the minutes. */
  lemma ClockRoundTrip(m: int)
    requires 0 <= m < 24 * 60
    ensures ClockMinutes(FormatClock(m)) == Some(m)
  {
    var t := FormatClock(m);
    var h := m / 60;
    var mm := m % 60;
    assert DigitValue(t[0]) == h / 10 && DigitValue(t[1]) == h % 10;
    assert DigitValue(t[3]) == mm / 10 && DigitValue(t[4]) == mm % 10;
  }

  /** Formatting the minutes of a valid clock text gives back the text. */
  lemma ClockTextRoundTrip(t: string)
    requires ClockMinutes(t).Some?
    ensures FormatClock(ClockMinutes(t).value) == t
  {
    var h := 10 * DigitValue(t[0]) + DigitValue(t[1]);
    var mm := 10 * DigitValue(t[3]) + DigitValue(t[4]);
    var m := 60 * h + mm;
    assert m / 60 == h && m % 60 == mm;
    assert h / 10 == DigitValue(t[0]) && h % 10 == DigitValue(t[1]);
    assert mm / 10 == DigitValue(t[3]) && mm % 10 == DigitValue(t[4]);
    assert DigitChar(DigitValue(t[0])) == t[0] && DigitChar(DigitValue(t[1])) == t[1];
    assert DigitChar(DigitValue(t[3])) == t[3] && DigitChar(DigitValue(t[4])) == t[4];
  }

  /**
   * The windows of a record in minutes, as the allocator reads them; None
   * when a text is not a valid time of day.
   */
  function ResolveRanges(pairs: seq<ClockPair>): (r: Option<seq<TimeRange>>)
    ensures r.Some? <==> forall i :: 0 <= i < |pairs| ==>
      ClockMinutes(pairs[i].from).Some? && ClockMinutes(pairs[i].to).Some?
    ensures r.Some? ==> |r.value| == |pairs| && forall i :: 0 <= i < |pairs| ==>
      r.value[i] == TimeRange(ClockMinutes(pairs[i].from).value, ClockMinutes(pairs[i].to).value)
  {
    if pairs == [] then Some([])
    else
      var a := ClockMinutes(pairs[0].from);
      var b := ClockMinutes(pairs[0].to);
      var rest := ResolveRanges(pairs[1..]);
      if a.Some? && b.Some? && rest.Some? then Some([TimeRange(a.value, b.value)] + rest.value)
      else
        assert !(a.Some? && b.Some?) ==> !(ClockMinutes(pairs[0].from).Some? && ClockMinutes(pairs[0].to).Some?);
        None
  }

  /** The rule the allocator reads from a filed record: days and cap as filed, windows in minutes. */
  function Resolve(raw: RawRule): (r: Option<Rule>)
    ensures r.Some? ==> r.value.days == raw.days && r.value.maxSksDaily == raw.maxSksDaily
    ensures r.Some? ==> (r.value.timeRanges.None? <==> raw.timeRanges.None?)
    ensures raw.timeRanges.None? ==> r.Some?
    ensures raw.timeRanges.Some? ==> (r.Some? <==> ResolveRanges(raw.timeRanges.value).Some?)
    ensures r.Some? && raw.timeRanges.Some? ==> r.value.timeRanges == ResolveRanges(raw.timeRanges.value)
  {
    match raw.timeRanges
    case None => Some(Rule(raw.days, None, raw.maxSksDaily))
    case Some(pairs) =>
      match ResolveRanges(pairs)
      case None => None
      case Some(ranges) => Some(Rule(raw.days, Some(ranges), raw.maxSksDaily))
  }

  // ---------------------------------------------------------------------
  // One row's record

  /** The `days` key: the parsed day list, unless the cell is not text or reads "all". */
  function DaysKey(cell: Cell): (days: Option<seq<string>>)
    ensures days.Some? <==> cell.Text? && !IsAll(cell.text)
    ensures days.Some? ==> |days.value| == |Split(cell.text)| >= 1
  {
    match cell
    case NotText => None
    case Text(s) => if IsAll(s) then None else Some(ParseDays(s))
  }

  /** The `time_ranges` key: the extracted windows, unless there are none or the cell reads "all". */
  function TimesKey(cell: Cell): (ranges: Option<seq<ClockPair>>)
    ensures ranges.Some? <==> cell.Text? && !IsAll(cell.text) && FindRanges(cell.text) != []
    ensures ranges.Some? ==> ranges.value == FindRanges(cell.text) && |ranges.value| >= 1
    ensures ranges.Some? ==> forall j :: 0 <= j < |ranges.value| ==>
      IsClockText(ranges.value[j].from) && IsClockText(ranges.value[j].to)
  {
    match cell
    case NotText => None
    case Text(s) =>
      if IsAll(s) then None
      else
        var found := FindRanges(s);
        if found == [] then None else Some(found)
  }

  /** The record of a row; None when it sets no key, so that nothing is filed. */
  function RuleOfRow(row: AvailabilityRow): (r: Option<RawRule>)
    ensures r.None? <==> DaysKey(row.availableDay).None? && TimesKey(row.availableTimes).None? && row.maxSksDaily.None?
  {
    var raw := RawRule(DaysKey(row.availableDay), TimesKey(row.availableTimes), row.maxSksDaily);
    if raw.days.None? && raw.timeRanges.None? && raw.maxSksDaily.None? then None else Some(raw)
  }

  /** A day cell that is text other than "all" always sets a non-empty day list. */
  lemma DayTextSetsDays(s: string)
    requires !IsAll(s)
    ensures DaysKey(Text(s)).Some? && |DaysKey(Text(s)).value| == |Split(s)| >= 1
    ensures RuleOfRow(AvailabilityRow(None, Text(s), NotText, None)).Some?
  {
  }

  /** A row whose cells read "all" or are not text, and with no cap, files nothing. */
  lemma UnconstrainedRowFilesNothing(row: AvailabilityRow)
    requires row.availableDay.NotText? || IsAll(row.availableDay.text)
    requires row.availableTimes.NotText? || IsAll(row.availableTimes.text)
    requires row.maxSksDaily.None?
    ensures RuleOfRow(row).None?
  {
  }

  /** The filed record keeps the cells' meaning: the parsed days, the windows found, the cap. */
  lemma RuleOfRowFields(row: AvailabilityRow)
    requires RuleOfRow(row).Some?
    ensures RuleOfRow(row).value.maxSksDaily == row.maxSksDaily
    ensures row.availableDay.Text? && !IsAll(row.availableDay.text) ==>
      RuleOfRow(row).value.days == Some(ParseDays(row.availableDay.text))
    ensures RuleOfRow(row).value.timeRanges.Some? <==>
      row.availableTimes.Text? && !IsAll(row.availableTimes.text) && FindRanges(row.availableTimes.text) != []
    ensures RuleOfRow(row).value.timeRanges.Some? ==>
      RuleOfRow(row).value.timeRanges.value == FindRanges(row.availableTimes.text)
  {
  }

  // ---------------------------------------------------------------------
  // Filing records by name

  // The filing laws hold whatever record a row yields, so they are proved for
  // a record builder given as a parameter; the loader's instances below pass
  // RuleOfRow. (The proofs then never look inside the day and range parsing.)

  /** Under the record builder rec, the row names `name` and yields a record, so it files one. */
  predicate FilesBy(rec: AvailabilityRow -> Option<RawRule>, row: AvailabilityRow, name: string)
  {
    row.name == Some(name) && name != "" && rec(row).Some?
  }

  /** The table after one row: a later record for a name replaces the earlier one. */
  function FileRowBy(rec: AvailabilityRow -> Option<RawRule>, m: map<string, RawRule>, row: AvailabilityRow)
    : map<string, RawRule>
  {
    if row.name.Some? && FilesBy(rec, row, row.name.value) then m[row.name.value := rec(row).value] else m
  }

  /** The table after the rows, in row order. */
  function FileRowsBy(rec: AvailabilityRow -> Option<RawRule>, m: map<string, RawRule>, rows: seq<AvailabilityRow>)
    : map<string, RawRule>
  {
    if rows == [] then m else FileRowBy(rec, FileRowsBy(rec, m, rows[..|rows| - 1]), rows[|rows| - 1])
  }

  /** After one row a name has a record when it had one or the row files one, the row's record winning. */
  lemma FileRowEffect(rec: AvailabilityRow -> Option<RawRule>, m: map<string, RawRule>, row: AvailabilityRow, name: string)
    ensures name in FileRowBy(rec, m, row) <==> name in m || FilesBy(rec, row, name)
    ensures name in FileRowBy(rec, m, row) ==>
      FileRowBy(rec, m, row)[name] == if FilesBy(rec, row, name) then rec(row).value else m[name]
  {
  }

  /** A name has a record exactly when it had one or some row files one under it. */
  lemma {:induction false} FileRowsByKeys(rec: AvailabilityRow -> Option<RawRule>, m: map<string, RawRule>,
                                          rows: seq<AvailabilityRow>, name: string)
    ensures name in FileRowsBy(rec, m, rows) <==> name in m || exists k :: 0 <= k < |rows| && FilesBy(rec, rows[k], name)
  {
    if rows != [] {
      var n := |rows| - 1;
      FileRowsByKeys(rec, m, rows[..n], name);
      FileRowEffect(rec, FileRowsBy(rec, m, rows[..n]), rows[n], name);
      assert rows == rows[..n] + [rows[n]];
      SomeOfExtension(rows[..n], rows[n], r => FilesBy(rec, r, name));
    }
  }

  /** Some element of an extension satisfies P exactly when some earlier one or the new one does. */
  lemma SomeOfExtension<T>(init: seq<T>, last: T, P: T -> bool)
    ensures (exists k :: 0 <= k < |init + [last]| && P((init + [last])[k]))
        <==> (exists k :: 0 <= k < |init| && P(init[k])) || P(last)
  {
    var s := init + [last];
    if exists k :: 0 <= k < |init| && P(init[k]) {
      var k :| 0 <= k < |init| && P(init[k]);
      assert s[k] == init[k];
    }
    if P(last) {
      assert s[|init|] == last;
    }
    if exists k :: 0 <= k < |s| && P(s[k]) {
      var k :| 0 <= k < |s| && P(s[k]);
      if k < |init| {
        assert s[k] == init[k];
      }
    }
  }

  /** The record of a name is that of the last row filing under it. */
  lemma {:induction false} FileRowsByLastWins(rec: AvailabilityRow -> Option<RawRule>, m: map<string, RawRule>,
                                              rows: seq<AvailabilityRow>, name: string, k: nat)
    requires k < |rows| && FilesBy(rec, rows[k], name)
    requires forall k2 :: k < k2 < |rows| ==> !FilesBy(rec, rows[k2], name)
    ensures name in FileRowsBy(rec, m, rows) && FileRowsBy(rec, m, rows)[name] == rec(rows[k]).value
  {
    var n := |rows| - 1;
    var init := rows[..n];
    if k < n {
      assert init[k] == rows[k];
      FileRowsByLastWins(rec, m, init, name, k);
    }
    FileRowEffect(rec, FileRowsBy(rec, m, init), rows[n], name);
  }

  /** The row has a non-empty name and sets at least one key, so it files a record under that name. */
  predicate Files(row: AvailabilityRow, name: string)
  {
    FilesBy(RuleOfRow, row, name)
  }

  /** The loader's table after one row. */
  function FileRow(m: map<string, RawRule>, row: AvailabilityRow): map<string, RawRule>
  {
    FileRowBy(RuleOfRow, m, row)
  }

  /** The loader's table after the rows, in row order. */
  function FileRows(m: map<string, RawRule>, rows: seq<AvailabilityRow>): map<string, RawRule>
  {
    FileRowsBy(RuleOfRow, m, rows)
  }

  /** In the loader's table a name has a record exactly when it had one or some row files one. */
  lemma FileRowsKeys(m: map<string, RawRule>, rows: seq<AvailabilityRow>, name: string)
    ensures name in FileRows(m, rows) <==> name in m || exists k :: 0 <= k < |rows| && Files(rows[k], name)
  {
    FileRowsByKeys(RuleOfRow, m, rows, name);
  }

  /** In the loader's table the record of a name is that of the last row filing under it. */
  lemma FileRowsLastWins(m: map<string, RawRule>, rows: seq<AvailabilityRow>, name: string, k: nat)
    requires k < |rows| && Files(rows[k], name)
    requires forall k2 :: k < k2 < |rows| ==> !Files(rows[k2], name)
    ensures name in FileRows(m, rows) && FileRows(m, rows)[name] == RuleOfRow(rows[k]).value
  {
    FileRowsByLastWins(RuleOfRow, m, rows, name, k);
  }

  /** The availability table the loader builds. */
  class AvailabilityTable {
    var rules: map<string, RawRule>

    constructor ()
      ensures rules == map[]
    {
      rules := map[];
    }

    /** One pass of the row loop: a row without a name, or setting no key, files nothing. */
    method AddRow(row: AvailabilityRow)
      modifies this
      ensures rules == FileRow(old(rules), row)
    {
      match row.name {
        case None =>
        case Some(name) =>
          if name != "" {
            var r := RuleOfRow(row);
            if r.Some? {
              rules := rules[name := r.value];
            }
          }
      }
    }

    /** The row loop over the sheet, in row order. */
    method AddRows(rows: seq<AvailabilityRow>)
      modifies this
      ensures rules == FileRows(old(rules), rows)
    {
      var i := 0;
      while i < |rows|
        invariant 0 <= i <= |rows|
        invariant rules == FileRows(old(rules), rows[..i])
      {
        assert rows[..i + 1][..i] == rows[..i];
        AddRow(rows[i]);
        i := i + 1;
      }
      assert rows[..|rows|] == rows;
    }
  }

  /**
   * The records filed from a sheet's rows: a name has a record exactly when
   * some row files one under it, and the record is that of the last such row.
   */
  method LoadAvailability(rows: seq<AvailabilityRow>) returns (rules: map<string, RawRule>)
    ensures forall name :: name in rules <==> exists k :: 0 <= k < |rows| && Files(rows[k], name)
    ensures forall name, k ::
      (0 <= k < |rows| && Files(rows[k], name) && forall k2 :: k < k2 < |rows| ==> !Files(rows[k2], name))
      ==> name in rules && rules[name] == RuleOfRow(rows[k]).value
  {
    var table := new AvailabilityTable();
    table.AddRows(rows);
    rules := table.rules;
    forall name ensures name in rules <==> exists k :: 0 <= k < |rows| && Files(rows[k], name) {
      FileRowsKeys(map[], rows, name);
    }
    forall name, k | 0 <= k < |rows| && Files(rows[k], name) && (forall k2 :: k < k2 < |rows| ==> !Files(rows[k2], name))
      ensures name in rules && rules[name] == RuleOfRow(rows[k]).value
    {
      FileRowsLastWins(map[], rows, name, k);
    }
  }
}
