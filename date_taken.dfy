/**
 * Capture-date resolution (photo_sorter.py:35-60): the EXIF `DateTimeOriginal` text read
 * with `datetime.strptime(..., '%Y:%m:%d %H:%M:%S')`, falling back to the file's
 * modification time.
 */
module DateTaken {
  import opened Wrappers
  import opened Text

  predicate IsLeapYear(y: nat) {
    y % 4 == 0 && (y % 100 != 0 || y % 400 == 0)
  }

  /** Days in a month of the proleptic Gregorian calendar that Python's `datetime` uses. */
  function DaysInMonth(y: nat, m: nat): (n: nat)
    requires 1 <= m <= 12
    ensures 28 <= n <= 31
  {
    if m == 2 then (if IsLeapYear(y) then 29 else 28)
    else if m == 4 || m == 6 || m == 9 || m == 11 then 30
    else 31
  }

  /** A date and time of day; microseconds are left out (they are zero for a parsed EXIF value). */
  datatype DateTime = DateTime(year: nat, month: nat, day: nat, hour: nat, minute: nat, second: nat)
  {
    /** The values `datetime(...)` accepts. */
    predicate Valid() {
      1 <= year <= 9999 && 1 <= month <= 12 && 1 <= day <= DaysInMonth(year, month)
      && hour < 24 && minute < 60 && second < 60
    }
  }

  /** A Python `datetime` object: it cannot hold an invalid date. */
  type Timestamp = t: DateTime | t.Valid() witness DateTime(1, 1, 1, 0, 0, 0)

  // The tokens `_strptime` accepts for each directive, alternative by alternative.

  /** `%m`: `1[0-2]|0[1-9]|[1-9]` */
  predicate MonthToken(t: string) {
    (|t| == 2 && t[0] == '1' && '0' <= t[1] <= '2')
    || (|t| == 2 && t[0] == '0' && '1' <= t[1] <= '9')
    || (|t| == 1 && '1' <= t[0] <= '9')
  }

  /** `%d`: `3[01]|[12]\d|0[1-9]|[1-9]| [1-9]` */
  predicate DayToken(t: string) {
    (|t| == 2 && t[0] == '3' && '0' <= t[1] <= '1')
    || (|t| == 2 && '1' <= t[0] <= '2' && IsDigit(t[1]))
    || (|t| == 2 && t[0] == '0' && '1' <= t[1] <= '9')
    || (|t| == 1 && '1' <= t[0] <= '9')
    || (|t| == 2 && t[0] == ' ' && '1' <= t[1] <= '9')
  }

  /** `%H`: `2[0-3]|[0-1]\d|\d` */
  predicate HourToken(t: string) {
    (|t| == 2 && t[0] == '2' && '0' <= t[1] <= '3')
    || (|t| == 2 && '0' <= t[0] <= '1' && IsDigit(t[1]))
    || (|t| == 1 && IsDigit(t[0]))
  }

  /** `%M`: `[0-5]\d|\d` */
  predicate MinuteToken(t: string) {
    (|t| == 2 && '0' <= t[0] <= '5' && IsDigit(t[1]))
    || (|t| == 1 && IsDigit(t[0]))
  }

  /** `%S`: `6[0-1]|[0-5]\d|\d` (60 and 61 pass the pattern; `datetime` rejects them). */
  predicate SecondToken(t: string) {
    (|t| == 2 && t[0] == '6' && '0' <= t[1] <= '1')
    || (|t| == 2 && '0' <= t[0] <= '5' && IsDigit(t[1]))
    || (|t| == 1 && IsDigit(t[0]))
  }

  // The readers `_strptime` applies, one directive of the format at a time. Each returns
  // the value read and the text after it. A field other than `%Y` is the whole run of digits
  // at the front: the separator after it is not a digit, so the regular expression can match
  // no shorter or longer alternative.

  /** `%Y`: exactly four digits. */
  function ReadYear(s: string): (r: Option<(nat, string)>)
    ensures r.Some? ==> |s| >= 4 && AllDigits(s[..4]) && r.value.0 == Value(s[..4]) && r.value.1 == s[4..]
  {
    if |s| < 4 || !AllDigits(s[..4]) then None else Some((Value(s[..4]), s[4..]))
  }

  /** A literal character of the format. */
  function ReadChar(c: char, s: string): (r: Option<string>)
    ensures r.Some? ==> s != [] && s[0] == c && r.value == s[1..]
  {
    if s != [] && s[0] == c then Some(s[1..]) else None
  }

  /** A space of the format, which matches one or more whitespace characters. */
  function ReadSpaces(s: string): Option<string> {
    var w := SpaceRun(s);
    if w == 0 then None else Some(s[w..])
  }

  function ReadMonth(s: string): Option<(nat, string)> {
    var n := DigitRun(s);
    if MonthToken(s[..n]) then Some((Value(s[..n]), s[n..])) else None
  }

  /** `%d` may start with one space (its ` [1-9]` alternative). */
  function ReadDay(s: string): Option<(nat, string)> {
    var lead := if |s| > 0 && s[0] == ' ' then 1 else 0;
    var n := lead + DigitRun(s[lead..]);
    assert s[lead..n] == s[lead..][..n - lead];
    if DayToken(s[..n]) then Some((Value(s[lead..n]), s[n..])) else None
  }

  function ReadHour(s: string): Option<(nat, string)> {
    var n := DigitRun(s);
    if HourToken(s[..n]) then Some((Value(s[..n]), s[n..])) else None
  }

  function ReadMinute(s: string): Option<(nat, string)> {
    var n := DigitRun(s);
    if MinuteToken(s[..n]) then Some((Value(s[..n]), s[n..])) else None
  }

  function ReadSecond(s: string): Option<(nat, string)> {
    var n := DigitRun(s);
    if SecondToken(s[..n]) then Some((Value(s[..n]), s[n..])) else None
  }

  /**
   * `datetime.strptime(s, '%Y:%m:%d %H:%M:%S')`, with None for the ValueError it raises:
   * a directive that does not match, data left over after the seconds, or values that
   * do not form a valid `datetime`. A text that is read starts with its year in four
   * digits and a colon.
   */
  function ParseExifDateTime(s: string): (r: Option<Timestamp>)
    ensures r.Some? ==> |s| > 4 && AllDigits(s[..4]) && Value(s[..4]) == r.value.year && s[4] == ':'
  {
    var year :- ReadYear(s);
    var r1 :- ReadChar(':', year.1);
    var month :- ReadMonth(r1);
    var r2 :- ReadChar(':', month.1);
    var day :- ReadDay(r2);
    var r3 :- ReadSpaces(day.1);
    var hour :- ReadHour(r3);
    var r4 :- ReadChar(':', hour.1);
    var minute :- ReadMinute(r4);
    var r5 :- ReadChar(':', minute.1);
    var second :- ReadSecond(r5);
    if second.1 != [] then None
    else
      var t := DateTime(year.0, month.0, day.0, hour.0, minute.0, second.0);
      if t.Valid() then Some(t) else None
  }

  /** The canonical EXIF form `YYYY:MM:DD HH:MM:SS` that cameras write. */
  function FormatExifDateTime(t: DateTime): (s: string)
    ensures |s| == 19
  {
    Fixed(t.year, 4) + (":" + (Fixed(t.month, 2) + (":" + (Fixed(t.day, 2) + (" "
      + (Fixed(t.hour, 2) + (":" + (Fixed(t.minute, 2) + (":" + Fixed(t.second, 2))))))))))
  }

  /**
   * `get_date_taken` once the file has been read: `exif` is the `DateTimeOriginal` tag
   * text (None when the file cannot be opened, EXIF parsing raises or the tag is absent),
   * and `mtime` is the modification time (None when `getmtime` or `fromtimestamp` raises).
   */
  function ResolveDate(exif: Option<string>, mtime: Option<Timestamp>): (r: Option<Timestamp>)
    ensures r == None <==> (exif.None? || ParseExifDateTime(exif.value).None?) && mtime == None
    ensures exif.Some? && ParseExifDateTime(exif.value).Some? ==> r == ParseExifDateTime(exif.value)
    ensures exif.None? || ParseExifDateTime(exif.value).None? ==> r == mtime
  {
    if exif.Some? && ParseExifDateTime(exif.value).Some? then ParseExifDateTime(exif.value)
    else mtime
  }

  // Each reader applied to a field written by `FormatExifDateTime`.

  /** A two-digit field is read up to the non-digit after it. */
  lemma TwoDigitPrefix(n: nat, rest: string)
    requires n < 100 && (rest == [] || !IsDigit(rest[0]))
    ensures var s := Fixed(n, 2) + rest;
            DigitRun(s) == 2 && s[..2] == Fixed(n, 2) && s[2..] == rest && Value(Fixed(n, 2)) == n
  {
    assert Pow10(2) == 100;
    DigitRunOfDigits(Fixed(n, 2), rest);
    assert (Fixed(n, 2) + rest)[..2] == Fixed(n, 2);
  }

  lemma ReadYearOfFixed(year: nat, rest: string)
    requires year < 10000
    ensures ReadYear(Fixed(year, 4) + rest) == Some((year, rest))
  {
    assert Pow10(4) == 10000;
    assert (Fixed(year, 4) + rest)[..4] == Fixed(year, 4);
  }

  lemma ReadCharOf(c: char, rest: string)
    ensures ReadChar(c, [c] + rest) == Some(rest)
  {
    assert ([c] + rest)[1..] == rest;
  }

  lemma ReadSpacesOfOne(rest: string)
    requires rest != [] && IsDigit(rest[0])
    ensures ReadSpaces(" " + rest) == Some(rest)
  {
    assert (" " + rest)[1..] == rest;
  }

  lemma ReadMonthOfFixed(month: nat, rest: string)
    requires 1 <= month <= 12 && rest != [] && !IsDigit(rest[0])
    ensures ReadMonth(Fixed(month, 2) + rest) == Some((month, rest))
  {
    TwoDigitPrefix(month, rest);
    FixedTwo(month);
  }

  lemma ReadDayOfFixed(day: nat, rest: string)
    requires 1 <= day <= 31 && rest != [] && !IsDigit(rest[0])
    ensures ReadDay(Fixed(day, 2) + rest) == Some((day, rest))
  {
    var s := Fixed(day, 2) + rest;
    TwoDigitPrefix(day, rest);
    FixedTwo(day);
    assert s[0] != ' ' && s[0..] == s && s[0..2] == Fixed(day, 2);
  }

  lemma ReadHourOfFixed(hour: nat, rest: string)
    requires hour < 24 && rest != [] && !IsDigit(rest[0])
    ensures ReadHour(Fixed(hour, 2) + rest) == Some((hour, rest))
  {
    TwoDigitPrefix(hour, rest);
    FixedTwo(hour);
  }

  lemma ReadMinuteOfFixed(minute: nat, rest: string)
    requires minute < 60 && rest != [] && !IsDigit(rest[0])
    ensures ReadMinute(Fixed(minute, 2) + rest) == Some((minute, rest))
  {
    TwoDigitPrefix(minute, rest);
    FixedTwo(minute);
  }

  /** The `%S` pattern accepts up to 61; nothing follows the seconds in the canonical form. */
  lemma ReadSecondOfFixed(second: nat)
    requires second <= 61
    ensures ReadSecond(Fixed(second, 2)) == Some((second, []))
  {
    TwoDigitPrefix(second, []);
    assert Fixed(second, 2) + [] == Fixed(second, 2);
    FixedTwo(second);
  }

  /** The fields are within the ranges their directives' patterns admit. */
  predicate InPatternRange(t: DateTime) {
    t.year < 10000 && 1 <= t.month <= 12 && 1 <= t.day <= 31
    && t.hour < 24 && t.minute < 60 && t.second <= 61
  }

  /**
   * strptime reads the canonical form of a date back field by field, and then accepts it
   * exactly when `datetime` accepts the values.
   */
  lemma ParseOfFormat(t: DateTime)
    requires InPatternRange(t)
    ensures ParseExifDateTime(FormatExifDateTime(t)) == if t.Valid() then Some(t) else None
  {
    var S := Fixed(t.second, 2);
    var r5 := ":" + S;
    var r4 := Fixed(t.minute, 2) + r5;
    var r3 := ":" + r4;
    var r2 := Fixed(t.hour, 2) + r3;
    var r1 := " " + r2;
    var m1 := Fixed(t.day, 2) + r1;
    var m0 := ":" + m1;
    var y1 := Fixed(t.month, 2) + m0;
    var y0 := ":" + y1;
    assert FormatExifDateTime(t) == Fixed(t.year, 4) + y0;
    ReadSecondOfFixed(t.second);
    ReadCharOf(':', S);
    ReadMinuteOfFixed(t.minute, r5);
    ReadCharOf(':', r4);
    assert Fixed(t.hour, 2)[0] == r2[0];
    ReadHourOfFixed(t.hour, r3);
    ReadSpacesOfOne(r2);
    ReadDayOfFixed(t.day, r1);
    ReadCharOf(':', m1);
    ReadMonthOfFixed(t.month, m0);
    ReadCharOf(':', y1);
    ReadYearOfFixed(t.year, y0);
  }

  /** strptime reads back every valid date written in the canonical EXIF form. */
  lemma ParseFormatRoundTrip(t: Timestamp)
    ensures ParseExifDateTime(FormatExifDateTime(t)) == Some(t)
  {
    ParseOfFormat(t);
  }

  /** 60 and 61 pass the `%S` pattern, but `datetime` refuses a leap second. */
  lemma LeapSecondIsRejected(t: DateTime)
    requires InPatternRange(t) && t.second >= 60
    ensures ParseExifDateTime(FormatExifDateTime(t)) == None
  {
    ParseOfFormat(t);
  }

  /** 29 February is read only in leap years. */
  lemma FebruaryTwentyNinth(t: DateTime)
    requires InPatternRange(t) && t.year >= 1 && t.month == 2 && t.day == 29 && t.second < 60
    ensures ParseExifDateTime(FormatExifDateTime(t)).Some? <==> IsLeapYear(t.year)
  {
    ParseOfFormat(t);
  }

  /** strptime also reads a month written with a single digit (`%m`'s `[1-9]` alternative). */
  lemma ShortMonthIsRead(month: nat, rest: string)
    requires 1 <= month <= 9 && rest != [] && !IsDigit(rest[0])
    ensures ReadMonth([DigitChar(month)] + rest) == Some((month, rest))
  {
    var s := [DigitChar(month)] + rest;
    DigitRunOfDigits([DigitChar(month)], rest);
    assert s[..1] == [DigitChar(month)] && s[1..] == rest;
    assert Value([DigitChar(month)]) == month by {
      assert [DigitChar(month)][..0] == [];
    }
  }

  /** strptime also reads a day padded with a space instead of a zero (`%d`'s ` [1-9]`). */
  lemma SpacePaddedDayIsRead(day: nat, rest: string)
    requires 1 <= day <= 9 && rest != [] && !IsDigit(rest[0])
    ensures ReadDay([' ', DigitChar(day)] + rest) == Some((day, rest))
  {
    var s := [' ', DigitChar(day)] + rest;
    assert s[1..] == [DigitChar(day)] + rest;
    DigitRunOfDigits([DigitChar(day)], rest);
    assert s[..2] == [' ', DigitChar(day)] && s[1..2] == [DigitChar(day)] && s[2..] == rest;
    assert Value([DigitChar(day)]) == day by {
      assert [DigitChar(day)][..0] == [];
    }
  }

  /** `00` is no month, whatever year comes before it and whatever follows it. */
  lemma ZeroMonthIsRejected(s: string)
    requires |s| >= 8 && AllDigits(s[..4]) && s[4..8] == ":00:"
    ensures ParseExifDateTime(s) == None
  {
    var rest := s[7..];
    assert s[4] == s[4..8][0] == ':' && s[7] == s[4..8][3] == ':';
    assert s[5] == s[4..8][1] == '0' && s[6] == s[4..8][2] == '0';
    assert s[5..] == "00" + rest;
    DigitRunOfDigits("00", rest);
    assert ("00" + rest)[..2] == "00";
  }

  /** The all-zero value that cameras without a set clock write is not a date. */
  lemma ZeroDateIsRejected()
    ensures ParseExifDateTime("0000:00:00 00:00:00") == None
  {
    var s := "0000:00:00 00:00:00";
    assert s[..4] == "0000" && s[4..8] == ":00:";
    ZeroMonthIsRejected(s);
  }

  /** A usable EXIF date decides the result, whatever the modification time says. */
  lemma ExifTakesPrecedence(s: string, mtime1: Option<Timestamp>, mtime2: Option<Timestamp>)
    requires ParseExifDateTime(s).Some?
    ensures ResolveDate(Some(s), mtime1) == ResolveDate(Some(s), mtime2) == ParseExifDateTime(s)
  {
  }

  /** Without a usable EXIF date the modification time is the result. */
  lemma MtimeIsFallback(exif: Option<string>, mtime: Option<Timestamp>)
    requires exif.None? || ParseExifDateTime(exif.value).None?
    ensures ResolveDate(exif, mtime) == mtime
  {
  }

  /** A file that does not exist has neither EXIF data nor a modification time: no date. */
  lemma MissingFileHasNoDate()
    ensures ResolveDate(None, None) == None
  {
  }

  /** An all-zero EXIF date is ignored in favour of the modification time. */
  lemma ZeroDateFallsBackToMtime(mtime: Option<Timestamp>)
    ensures ResolveDate(Some("0000:00:00 00:00:00"), mtime) == mtime
  {
    ZeroDateIsRejected();
  }

  /** A date a camera wrote in the canonical form wins over any modification time. */
  lemma CameraDateWins(t: Timestamp, mtime: Option<Timestamp>)
    ensures ResolveDate(Some(FormatExifDateTime(t)), mtime) == Some(t)
  {
    ParseFormatRoundTrip(t);
  }
}
