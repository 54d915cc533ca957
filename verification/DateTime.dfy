/** The IMAP `date-time` printer and parser (section 9 of RFC 3501) on top of
    the civil calendar. */
module DateTime {
  import opened Common
  import opened Text
  import opened CivilCalendar

  const MONTHS: seq<string> := [
    "Jan", "Feb", "Mar", "Apr", "May", "Jun", "Jul", "Aug", "Sep", "Oct", "Nov", "Dec"]

  /** Position of the first month whose name matches, counted from `from`. */
  function FindMonth(name: string, from: nat): Option<nat>
    requires from <= 12
    decreases 12 - from
  {
    if from == 12 then None
    else if EqIgnoreCase(MONTHS[from], name) then Some(from + 1)
    else FindMonth(name, from + 1)
  }

  function MonthNumber(name: string): Option<nat> {
    if |name| != 3 then None else FindMonth(name, 0)
  }

  function ParseDateOnly(value: string): Result<int> {
    var parts := Split(Trim(value), '-');
    var day := ParseUnsigned(Trim(parts[0]), U32_MAX);
    if day.None? || |parts| < 2 then Err
    else
      var month := MonthNumber(parts[1]);
      if month.None? || |parts| < 3 then Err
      else
        var year := ParseSigned(Trim(parts[2]), I64_MIN, I64_MAX);
        if year.None? || |parts| > 3 then Err
        else
          var d := Date(year.value, month.value, day.value);
          if !(1 <= d.year <= 9999) || d.day == 0 || d.day > DaysInMonth(d.year, d.month) then Err
          else Ok(DaysFromCivil(d))
  }

  function ParseZone(zone: string): Option<int> {
    if |zone| != 5 || zone[0] !in {'+', '-'} || !AllDigits(zone[1..]) then None
    else
      var hours, minutes := NumberValue(zone[1..3]), NumberValue(zone[3..5]);
      if hours > 23 || minutes > 59 then None
      else Some(ZoneOffset(zone[0], hours, minutes))
  }

  /** Seconds east of UTC of a signed zone. */
  function ZoneOffset(sign: char, hours: nat, minutes: nat): int {
    if sign == '+' then hours * 3600 + minutes * 60 else -(hours * 3600 + minutes * 60)
  }

  /** The clock field: the first three pieces count, further ones are ignored. */
  function ParseClock(field: string): Result<int> {
    var parts := Split(field, ':');
    if |parts| < 3 then Err
    else
      var h, m, s := ParseI64(parts[0]), ParseI64(parts[1]), ParseI64(parts[2]);
      if h.None? || m.None? || s.None? then Err
      else if !(0 <= h.value < 24) || !(0 <= m.value < 60) || !(0 <= s.value <= 60) then Err
      else Ok(h.value * 3600 + m.value * 60 + s.value)
  }

  function ParseI64(s: string): Option<int> {
    ParseSigned(s, I64_MIN, I64_MAX)
  }

  function ParseDateTime(value: string): Result<int> {
    var fields := Words(Trim(TrimBy(Trim(value), IsQuote)));
    if |fields| < 2 then Err
    else
      var days, clock := ParseDateOnly(fields[0]), ParseClock(fields[1]);
      if days.Err? || clock.Err? then Err
      else
        var offset := if |fields| > 2 then ParseZone(fields[2]) else Some(0);
        if offset.None? || |fields| > 3 then Err
        else Ok(days.value * 86400 + clock.value - offset.value)
  }

  function MonthName(month: int): string {
    if 1 <= month <= 12 then MONTHS[month - 1] else "Jan"
  }

  function FormatDate(d: Date): string {
    PaddedInt(d.day, 2) + "-" + MonthName(d.month) + "-" + PaddedInt(d.year, 4)
  }

  /** A time of day as `hh:mm:ss`; second 60 is a leap second. */
  function FormatClock(hour: nat, minute: nat, second: nat): string {
    Padded(hour, 2) + ":" + Padded(minute, 2) + ":" + Padded(second, 2)
  }

  function FormatZone(sign: char, hours: nat, minutes: nat): string {
    [sign] + Padded(hours, 2) + Padded(minutes, 2)
  }

  function FormatDateTime(timestamp: int): string {
    var d := CivilFromDays(timestamp / 86400);
    var seconds := timestamp % 86400;
    FormatDate(d) + " " + FormatClock(seconds / 3600, seconds % 3600 / 60, seconds % 60) + " +0000"
  }

  // ---------------------------------------------------------------- proofs

  lemma TwoDigits(n: nat)
    requires n < 100
    ensures |Padded(n, 2)| == 2 && NumberValue(Padded(n, 2)) == n
  {
    assert Pow10(2) == 100 by { assert Pow10(1) == 10; }
    PaddedWidth(n, 2);
    PaddedValue(n, 2);
  }

  /** The months as section 9 of RFC 3501 spells them, three letters each. */
  const MONTH_LETTERS := "JanFebMarAprMayJunJulAugSepOctNovDec"

  lemma ThirdsOfLetters()
    ensures MONTH_LETTERS == "JanFebMarApr" + "MayJunJulAug" + "SepOctNovDec"
  {}

  lemma FirstThird(i: nat)
    requires i < 4
    ensures "JanFebMarApr"[3 * i..3 * i + 3] == MONTHS[0 + i]
  {
    var s := "JanFebMarApr";
    match i
    case 0 => assert s[0] == 'J' && s[1] == 'a' && s[2] == 'n';
    case 1 => assert s[3] == 'F' && s[4] == 'e' && s[5] == 'b';
    case 2 => assert s[6] == 'M' && s[7] == 'a' && s[8] == 'r';
    case 3 => assert s[9] == 'A' && s[10] == 'p' && s[11] == 'r';
  }

  lemma SecondThird(i: nat)
    requires i < 4
    ensures "MayJunJulAug"[3 * i..3 * i + 3] == MONTHS[4 + i]
  {
    var s := "MayJunJulAug";
    match i
    case 0 => assert s[0] == 'M' && s[1] == 'a' && s[2] == 'y';
    case 1 => assert s[3] == 'J' && s[4] == 'u' && s[5] == 'n';
    case 2 => assert s[6] == 'J' && s[7] == 'u' && s[8] == 'l';
    case 3 => assert s[9] == 'A' && s[10] == 'u' && s[11] == 'g';
  }

  lemma LastThird(i: nat)
    requires i < 4
    ensures "SepOctNovDec"[3 * i..3 * i + 3] == MONTHS[8 + i]
  {
    var s := "SepOctNovDec";
    match i
    case 0 => assert s[0] == 'S' && s[1] == 'e' && s[2] == 'p';
    case 1 => assert s[3] == 'O' && s[4] == 'c' && s[5] == 't';
    case 2 => assert s[6] == 'N' && s[7] == 'o' && s[8] == 'v';
    case 3 => assert s[9] == 'D' && s[10] == 'e' && s[11] == 'c';
  }

  /** Letters in three parts of four months each. */
  lemma LettersOf(months: seq<string>, letters: string, a: string, b: string, c: string, month: int)
    requires |months| == 12 && letters == a + b + c && |a| == 12 && |b| == 12 && |c| == 12
    requires forall i :: 0 <= i < 4 ==> a[3 * i..3 * i + 3] == months[i]
    requires forall i :: 0 <= i < 4 ==> b[3 * i..3 * i + 3] == months[4 + i]
    requires forall i :: 0 <= i < 4 ==> c[3 * i..3 * i + 3] == months[8 + i]
    requires 1 <= month <= 12
    ensures months[month - 1] == letters[3 * (month - 1)..3 * month]
  {
    var m := month - 1;
    if m < 4 {
      SliceOfThird([], a, b + c, m);
      assert letters == [] + a + (b + c);
    } else if m < 8 {
      SliceOfThird(a, b, c, m - 4);
      assert months[m] == months[4 + (m - 4)];
    } else {
      SliceOfThird(a + b, c, [], m - 8);
      assert letters == a + b + c + [];
      assert months[m] == months[8 + (m - 8)];
    }
  }

  lemma SliceOfThird(before: string, third: string, after: string, i: nat)
    requires |third| == 12 && i < 4
    ensures (before + third + after)[|before| + 3 * i..|before| + 3 * i + 3] == third[3 * i..3 * i + 3]
  {}

  lemma MonthsAreLetters(month: int)
    requires 1 <= month <= 12
    ensures |MONTH_LETTERS| == 36 && MonthName(month) == MONTH_LETTERS[3 * (month - 1)..3 * month]
  {
    forall i | 0 <= i < 4
      ensures "JanFebMarApr"[3 * i..3 * i + 3] == MONTHS[i]
      ensures "MayJunJulAug"[3 * i..3 * i + 3] == MONTHS[4 + i]
      ensures "SepOctNovDec"[3 * i..3 * i + 3] == MONTHS[8 + i]
    {
      FirstThird(i);
      SecondThird(i);
      LastThird(i);
    }
    ThirdsOfLetters();
    LettersOf(MONTHS, MONTH_LETTERS, "JanFebMarApr", "MayJunJulAug", "SepOctNovDec", month);
  }

  /** A name is that of a month exactly when it has the month's letters, in any case. */
  lemma MonthNumberReads(text: string, month: int)
    ensures MonthNumber(text) == Some(month) <==>
            1 <= month <= 12 && EqIgnoreCase(text, MONTH_LETTERS[3 * (month - 1)..3 * month])
  {
    hide EqIgnoreCase, MONTHS, MONTH_LETTERS;
    if |text| == 3 { FoundMonth(text, 0); }
    if 1 <= month <= 12 {
      MonthsAreLetters(month);
      if EqIgnoreCase(text, MonthName(month)) { MonthText(text, month); }
    }
  }

  lemma {:induction false} FoundMonth(text: string, from: nat)
    requires from <= 12
    ensures var m := FindMonth(text, from); m.Some? ==> 1 <= m.value <= 12 && EqIgnoreCase(text, MonthName(m.value))
    decreases 12 - from
  {
    if from < 12 {
      FoundMonth(text, from + 1);
      if EqIgnoreCase(MONTHS[from], text) { SameLetters(MONTHS[from], text); }
    }
  }

  lemma SameLetters(a: string, b: string)
    requires EqIgnoreCase(a, b)
    ensures EqIgnoreCase(b, a)
  {}

  /** A month name in any letter case. */
  lemma MonthText(text: string, month: int)
    requires 1 <= month <= 12 && EqIgnoreCase(text, MonthName(month))
    ensures MonthNumber(text) == Some(month)
    ensures |text| == 3 && '-' !in text && IsWord(text)
  {
    var name := MonthName(month);
    assert |name| == 3 && forall i :: 0 <= i < 3 ==> 'a' <= AsciiLower(name[i]) <= 'z';
    forall i | 0 <= i < 3 ensures text[i] != '-' && !IsWhitespace(text[i]) {
      assert AsciiLower(text[i]) == AsciiLower(name[i]);
    }
    FindsMonth(text, month, 0);
  }

  lemma {:induction false} FindsMonth(text: string, month: int, from: nat)
    requires 1 <= month <= 12 && from < month && EqIgnoreCase(text, MONTHS[month - 1])
    ensures FindMonth(text, from) == Some(month)
    decreases month - from
  {
    if from + 1 < month {
      MonthsDiffer(from, month - 1);
      OtherMonth(text, MONTHS[month - 1], MONTHS[from]);
      FindsMonth(text, month, from + 1);
    } else {
      var name := MONTHS[from];
      assert EqIgnoreCase(name, text);
    }
  }

  lemma OtherMonth(text: string, name: string, other: string)
    requires EqIgnoreCase(text, name) && !EqIgnoreCase(other, name)
    ensures !EqIgnoreCase(other, text)
  {}

  lemma MonthsDiffer(a: nat, b: nat)
    requires a < b < 12
    ensures !EqIgnoreCase(MONTHS[a], MONTHS[b])
  {
    var x, y := MONTHS[a], MONTHS[b];
    assert AsciiLower(x[0]) != AsciiLower(y[0]) || AsciiLower(x[1]) != AsciiLower(y[1])
        || AsciiLower(x[2]) != AsciiLower(y[2]);
  }

  predicate NonBlank(s: string) {
    forall i :: 0 <= i < |s| ==> !IsWhitespace(s[i])
  }

  lemma DigitsArePlain(s: string)
    requires AllDigits(s)
    ensures NonBlank(s) && '-' !in s && ':' !in s && '"' !in s
  {
    forall i | 0 <= i < |s| ensures !IsWhitespace(s[i]) && s[i] != '-' && s[i] != ':' && s[i] != '"' {
      assert IsDigit(s[i]);
    }
  }

  /** The printed year read back: any year from 0 up, but no negative one, is one piece. */
  lemma YearText(year: int)
    ensures IsWord(PaddedInt(year, 4))
    ensures year >= 0 ==> Split(PaddedInt(year, 4), '-') == [PaddedInt(year, 4)]
    ensures year >= 0 ==> ParseI64(PaddedInt(year, 4)) == if year <= I64_MAX then Some(year) else None
    ensures year < 0 ==> Split(PaddedInt(year, 4), '-')[0] == []
  {
    if year >= 0 {
      DigitsArePlain(Padded(year, 4));
      SplitNone(Padded(year, 4), '-');
      ParsePadded(year, 4);
    } else {
      DigitsArePlain(Padded(-year, 3));
      assert PaddedInt(year, 4) == [] + ['-'] + Padded(-year, 3);
      SplitAt([], '-', Padded(-year, 3));
    }
  }

  /** Three pieces joined by a separator, the last of which may split further. */
  lemma ThreePieces(a: string, b: string, c: string, sep: char)
    requires sep !in a && sep !in b && !IsWhitespace(sep)
    requires IsWord(a) && IsWord(b) && IsWord(c)
    ensures IsWord(a + [sep] + b + [sep] + c)
    ensures Split(a + [sep] + b + [sep] + c, sep) == [a, b] + Split(c, sep)
  {
    PlainConcat(b + [sep], c);
    PlainConcat(a + [sep], b + [sep] + c);
    assert a + [sep] + b + [sep] + c == a + [sep] + (b + [sep] + c);
    hide IsWord, IsWhitespace;
    SplitAt(a, sep, b + [sep] + c);
    SplitAt(b, sep, c);
  }

  lemma PlainConcat(a: string, b: string)
    requires IsWord(a) && IsWord(b)
    ensures IsWord(a + b)
  {}

  lemma WordIsTrimmed(w: string)
    requires IsWord(w)
    ensures Trim(w) == w
  {
    TrimNothing(w, IsWhitespace);
  }

  /** A date as a client may write it: the day with two digits or one, the month in any case. */
  function DateText(d: Date, twoDigits: bool, month: string): string
    requires d.day >= 0
  {
    (if twoDigits then Padded(d.day, 2) else Decimal(d.day)) + "-" + month + "-" + PaddedInt(d.year, 4)
  }

  /** A written date with any day and year is accepted exactly when it is a real one and its
      year is 1 to 9999. */
  lemma ParseWrittenDate(d: Date, twoDigits: bool, month: string)
    requires d.day >= 0 && 1 <= d.month <= 12
    requires EqIgnoreCase(month, MONTH_LETTERS[3 * (d.month - 1)..3 * d.month])
    ensures IsWord(DateText(d, twoDigits, month)) && IsDigit(DateText(d, twoDigits, month)[0])
    ensures ParseDateOnly(DateText(d, twoDigits, month)) ==
            if ValidDate(d) && 1 <= d.year <= 9999 then Ok(DaysFromCivil(d)) else Err
  {
    MonthsAreLetters(d.month);
    MonthText(month, d.month);
    var day, year := if twoDigits then Padded(d.day, 2) else Decimal(d.day), PaddedInt(d.year, 4);
    DayText(d.day);
    YearText(d.year);
    var text := DateText(d, twoDigits, month);
    assert text == day + "-" + month + "-" + year;
    hide *;
    ThreePieces(day, month, year, '-');
    WordIsTrimmed(text);
    WordIsTrimmed(day);
    WordStarts(day);
    assert text[0] == day[0];
    if d.year >= 0 { WordIsTrimmed(year); } else { EmptyIsNoNumber(); }
    PartsRead(text, d, day, month, Split(year, '-'));
  }

  lemma WordStarts(w: string)
    requires IsWord(w)
    ensures w != []
  {}

  /** A date whose pieces read as its fields, the year first among the last ones. */
  lemma PartsRead(text: string, d: Date, day: string, month: string, rest: seq<string>)
    requires Split(Trim(text), '-') == [day, month] + rest && rest != []
    requires d.day >= 0 && 1 <= d.month <= 12 && MonthNumber(month) == Some(d.month)
    requires ParseUnsigned(Trim(day), U32_MAX) == if d.day <= U32_MAX then Some(d.day) else None
    requires var y := ParseI64(Trim(rest[0]));
             if d.year < 0 then y == None else |rest| == 1 && y == if d.year <= I64_MAX then Some(d.year) else None
    ensures ParseDateOnly(text) == if ValidDate(d) && 1 <= d.year <= 9999 then Ok(DaysFromCivil(d)) else Err
  {
    hide DaysFromCivil, ParseUnsigned, ParseSigned, Split, Trim, MonthNumber, IsLeap;
    var parts := [day, month] + rest;
    assert parts[0] == day && parts[1] == month && parts[2] == rest[0];
  }

  lemma DayText(day: nat)
    ensures IsWord(Padded(day, 2)) && '-' !in Padded(day, 2) && IsDigit(Padded(day, 2)[0])
    ensures ParseUnsigned(Padded(day, 2), U32_MAX) == if day <= U32_MAX then Some(day) else None
    ensures IsWord(Decimal(day)) && '-' !in Decimal(day) && IsDigit(Decimal(day)[0])
    ensures ParseUnsigned(Decimal(day), U32_MAX) == if day <= U32_MAX then Some(day) else None
  {
    DigitsArePlain(Padded(day, 2));
    ParsePadded(day, 2);
    DigitsArePlain(Decimal(day));
    ParsePadded(day, 0);
    assert Padded(day, 0) == Decimal(day);
  }

  lemma EmptyIsNoNumber()
    ensures ParseI64(Trim([])) == None
  {}

  lemma ClockText(n: nat)
    ensures IsWord(Padded(n, 2)) && ':' !in Padded(n, 2) && Split(Padded(n, 2), ':') == [Padded(n, 2)]
    ensures ParseI64(Padded(n, 2)) == if n <= I64_MAX then Some(n) else None
  {
    DigitsArePlain(Padded(n, 2));
    SplitNone(Padded(n, 2), ':');
    ParsePadded(n, 2);
  }

  /** A written clock is accepted exactly when it shows a time of day, leap seconds included. */
  lemma ParseFormattedClock(hour: nat, minute: nat, second: nat)
    ensures IsWord(FormatClock(hour, minute, second))
    ensures ParseClock(FormatClock(hour, minute, second)) ==
            if hour < 24 && minute < 60 && second <= 60 then Ok(hour * 3600 + minute * 60 + second) else Err
  {
    hide Padded, ParseI64, Split, IsWord;
    ClockText(hour);
    ClockText(minute);
    ClockText(second);
    ThreePieces(Padded(hour, 2), Padded(minute, 2), Padded(second, 2), ':');
  }

  /** Two decimal digits of a number below 100. */
  predicate IsTwoDigits(s: string, n: int) {
    |s| == 2 && s[0] as int == '0' as int + n / 10 && s[1] as int == '0' as int + n % 10
  }

  lemma TwoDigitsShown(n: nat)
    requires n < 100
    ensures IsTwoDigits(Padded(n, 2), n)
  {
    if n < 10 {
      assert Decimal(n) == [DigitChar(n)];
      assert Padded(n, 2) == Zeros(1) + [DigitChar(n)];
    } else {
      assert Decimal(n) == [DigitChar(n / 10)] + [DigitChar(n % 10)];
    }
  }

  lemma TwoDigitsValue(s: string)
    requires |s| == 2 && AllDigits(s)
    ensures 0 <= NumberValue(s) < 100 && IsTwoDigits(s, NumberValue(s))
  {
    assert NumberValue(s[..1]) == DigitValue(s[0]) by { assert s[..1][..0] == []; }
  }

  /** A sign, two digits of hours and two of minutes. */
  predicate IsZone(zone: string, sign: char, hours: int, minutes: int) {
    |zone| == 5 && zone[0] == sign && IsTwoDigits(zone[1..3], hours) && IsTwoDigits(zone[3..5], minutes)
  }

  /** Exactly the signed zones up to 23:59 are read, as seconds east of UTC. */
  lemma ParseZoneExactly(zone: string, offset: int)
    ensures ParseZone(zone) == Some(offset) <==>
            exists sign, hours, minutes ::
              && IsZone(zone, sign, hours, minutes) && sign in {'+', '-'}
              && 0 <= hours < 24 && 0 <= minutes < 60
              && offset == (if sign == '+' then 1 else -1) * (hours * 3600 + minutes * 60)
  {
    if ParseZone(zone) == Some(offset) {
      var h, m := zone[1..3], zone[3..5];
      assert AllDigits(h) && AllDigits(m) by { assert forall i :: 0 <= i < 4 ==> IsDigit(zone[1..][i]); }
      TwoDigitsValue(h);
      TwoDigitsValue(m);
      assert IsZone(zone, zone[0], NumberValue(h), NumberValue(m));
    }
    if sign, hours, minutes :| IsZone(zone, sign, hours, minutes) && sign in {'+', '-'} && 0 <= hours < 24
                               && 0 <= minutes < 60
                               && offset == (if sign == '+' then 1 else -1) * (hours * 3600 + minutes * 60) {
      ZoneIsFormatted(zone, sign, hours, minutes);
      ParseFormattedZone(sign, hours, minutes);
    }
  }

  lemma ZoneIsFormatted(zone: string, sign: char, hours: nat, minutes: nat)
    requires IsZone(zone, sign, hours, minutes) && hours < 100 && minutes < 100
    ensures zone == FormatZone(sign, hours, minutes)
  {
    TwoDigitsShown(hours);
    TwoDigitsShown(minutes);
    hide Padded, IsTwoDigits;
    SameTwoDigits(zone[1..3], Padded(hours, 2), hours);
    SameTwoDigits(zone[3..5], Padded(minutes, 2), minutes);
    assert zone == [zone[0]] + zone[1..3] + zone[3..5];
  }

  lemma SameTwoDigits(s: string, t: string, n: int)
    requires IsTwoDigits(s, n) && IsTwoDigits(t, n)
    ensures s == t
  {}

  lemma ParseFormattedZone(sign: char, hours: nat, minutes: nat)
    requires sign in {'+', '-'} && hours < 100 && minutes < 100
    ensures IsWord(FormatZone(sign, hours, minutes)) && FormatZone(sign, hours, minutes)[4] != '"'
    ensures |FormatZone(sign, hours, minutes)| == 5
    ensures ParseZone(FormatZone(sign, hours, minutes)) ==
            if hours < 24 && minutes < 60 then Some((if sign == '+' then 1 else -1) * (hours * 3600 + minutes * 60))
            else None
  {
    TwoDigits(hours);
    TwoDigits(minutes);
    hide Padded, NumberValue;
    ZoneText(sign, Padded(hours, 2), Padded(minutes, 2));
  }

  lemma ZoneText(sign: char, h: string, m: string)
    requires sign in {'+', '-'} && |h| == 2 && |m| == 2 && AllDigits(h) && AllDigits(m)
    ensures IsWord([sign] + h + m) && ([sign] + h + m)[4] != '"'
    ensures ([sign] + h + m)[1..3] == h && ([sign] + h + m)[3..5] == m
    ensures AllDigits(([sign] + h + m)[1..])
  {
    DigitsArePlain(h);
    DigitsArePlain(m);
    assert ([sign] + h + m)[1..] == h + m;
  }

  /** A date-time with what its grammar allows around it: a blank before a one-digit day,
      double quotes around the whole. */
  function Wrapped(text: string, blank: bool, quotes: bool): string {
    var s := (if blank then " " else "") + text;
    if quotes then "\"" + s + "\"" else s
  }

  predicate IsQuote(c: char) {
    c == '"'
  }

  lemma Unwrapped(text: string, blank: bool, quotes: bool)
    requires text != [] && !IsWhitespace(text[0]) && !IsQuote(text[0])
    requires !IsWhitespace(text[|text| - 1]) && !IsQuote(text[|text| - 1])
    ensures Trim(TrimBy(Trim(Wrapped(text, blank, quotes)), IsQuote)) == text
  {
    hide TrimStartBy, TrimEndBy;
    var s := (if blank then " " else "") + text;
    if blank {
      TrimOne(text, ' ', IsWhitespace);
      assert s == [' '] + text;
    } else {
      TrimNothing(text, IsWhitespace);
      assert s == text;
    }
    if quotes {
      TrimNothing("\"" + s + "\"", IsWhitespace);
      TrimBoth(s, '"', IsQuote);
      assert "\"" + s + "\"" == ['"'] + s + ['"'];
    } else {
      TrimNothing(text, IsQuote);
      TrimNothing(text, IsWhitespace);
    }
  }

  lemma TrimOne(s: string, c: char, p: char -> bool)
    requires s != [] && !p(s[0]) && !p(s[|s| - 1]) && p(c)
    ensures TrimBy([c] + s, p) == s
  {
    assert ([c] + s)[1..] == s;
    assert TrimStartBy([c] + s, p) == TrimStartBy(s, p) == s;
    assert TrimEndBy(s, p) == s;
  }

  lemma TrimBoth(s: string, c: char, p: char -> bool)
    requires s != [] && !p(s[0]) && !p(s[|s| - 1]) && p(c)
    ensures TrimBy([c] + s + [c], p) == s
  {
    var t := [c] + s + [c];
    assert t[1..] == s + [c] && (s + [c])[0] == s[0];
    assert TrimStartBy(t, p) == TrimStartBy(s + [c], p) == s + [c];
    assert (s + [c])[..|s|] == s;
    assert TrimEndBy(s + [c], p) == TrimEndBy(s, p) == s;
  }

  /** The three fields of a date-time, joined by single blanks, whatever is around them. */
  lemma FieldsOf(date: string, clock: string, zone: string, blank: bool, quotes: bool)
    requires IsWord(date) && IsWord(clock) && IsWord(zone)
    requires date[0] != '"' && |zone| == 5 && zone[4] != '"'
    ensures var s := Wrapped(date + " " + clock + " " + zone, blank, quotes);
            Words(Trim(TrimBy(Trim(s), IsQuote))) == [date, clock, zone]
  {
    hide Words, TrimBy, Trim, Wrapped;
    var s := date + " " + clock + " " + zone;
    assert s[0] == date[0] && s[|s| - 1] == zone[4];
    Unwrapped(s, blank, quotes);
    assert s == date + " " + (clock + " " + zone);
    WordsCons(date, clock + " " + zone);
    WordsCons(clock, zone);
    WordsLast(zone);
  }

  /** Every date-time of the grammar parses to its instant: in any zone, with a leap second,
      with a day of two digits or a blank and one, a month in any letter case, in quotes or
      without. One with a field out of its range is refused. */
  lemma ParseFormatted(d: Date, twoDigits: bool, month: string, hour: nat, minute: nat, second: nat,
                       sign: char, zh: nat, zm: nat, quotes: bool)
    requires d.day >= 0 && 1 <= d.month <= 12
    requires EqIgnoreCase(month, MONTH_LETTERS[3 * (d.month - 1)..3 * d.month])
    requires sign in {'+', '-'} && zh < 100 && zm < 100
    ensures var fields := DateText(d, twoDigits, month) + " " + FormatClock(hour, minute, second)
                          + " " + FormatZone(sign, zh, zm);
            ParseDateTime(Wrapped(fields, !twoDigits, quotes))
            == if && ValidDate(d) && 1 <= d.year <= 9999
                  && hour < 24 && minute < 60 && second <= 60 && zh < 24 && zm < 60
               then Ok(DaysFromCivil(d) * 86400 + hour * 3600 + minute * 60 + second
                       - (if sign == '+' then 1 else -1) * (zh * 3600 + zm * 60))
               else Err
  {
    hide DaysFromCivil, ParseDateOnly, ParseClock, ParseZone, DateText, FormatClock, FormatZone, IsWord,
      Words, Trim, TrimBy, Wrapped, EqIgnoreCase, ValidDate, MONTH_LETTERS;
    var date, clock, zone := DateText(d, twoDigits, month), FormatClock(hour, minute, second), FormatZone(sign, zh, zm);
    ParseWrittenDate(d, twoDigits, month);
    ParseFormattedClock(hour, minute, second);
    ParseFormattedZone(sign, zh, zm);
    FieldsOf(date, clock, zone, !twoDigits, quotes);
  }

  /** Without a zone the time is that of UTC. */
  lemma ParseWithoutZone(d: Date, twoDigits: bool, month: string, hour: nat, minute: nat, second: nat)
    requires d.day >= 0 && 1 <= d.month <= 12
    requires EqIgnoreCase(month, MONTH_LETTERS[3 * (d.month - 1)..3 * d.month])
    ensures ParseDateTime(DateText(d, twoDigits, month) + " " + FormatClock(hour, minute, second)) ==
            if ValidDate(d) && 1 <= d.year <= 9999 && hour < 24 && minute < 60 && second <= 60
            then Ok(DaysFromCivil(d) * 86400 + hour * 3600 + minute * 60 + second) else Err
  {
    hide DaysFromCivil, ParseDateOnly, ParseClock, ParseZone, DateText, FormatClock, IsWord, Words, Trim, TrimBy,
      EqIgnoreCase, ValidDate, MONTH_LETTERS;
    var date, clock := DateText(d, twoDigits, month), FormatClock(hour, minute, second);
    ParseWrittenDate(d, twoDigits, month);
    ParseFormattedClock(hour, minute, second);
    LastOfClock(hour, minute, second);
    WordsTrimmed(date, clock);
    WordsCons(date, clock);
    WordsLast(clock);
  }

  lemma LastOfClock(hour: nat, minute: nat, second: nat)
    ensures var clock := FormatClock(hour, minute, second); clock != [] && IsDigit(clock[|clock| - 1])
  {
    var s := Padded(second, 2);
    assert FormatClock(hour, minute, second)[|FormatClock(hour, minute, second)| - 1] == s[|s| - 1];
    hide Padded;
  }

  /** Nothing is trimmed from words that start and end without a quote. */
  lemma WordsTrimmed(first: string, last: string)
    requires IsWord(first) && IsWord(last) && first[0] != '"' && last[|last| - 1] != '"'
    ensures var s := first + " " + last; Trim(TrimBy(Trim(s), IsQuote)) == s
  {
    var s := first + " " + last;
    assert s[0] == first[0] && s[|s| - 1] == last[|last| - 1];
    TrimNothing(s, IsWhitespace);
    TrimNothing(s, IsQuote);
  }

  /** A fourth field is refused, whatever the first three are. */
  lemma FourFieldsAreRefused(a: string, b: string, c: string, d: string)
    requires IsWord(a) && IsWord(b) && IsWord(c) && IsWord(d) && a[0] != '"' && d[|d| - 1] != '"'
    ensures ParseDateTime(a + " " + b + " " + c + " " + d) == Err
  {
    hide Words, Trim, TrimBy, ParseDateOnly, ParseClock, ParseZone, IsWord;
    var s := a + " " + b + " " + c + " " + d;
    AssocBlanks(a, b, c, d);
    Ends(a, b + " " + (c + " " + d), d);
    WordsCons(a, b + " " + (c + " " + d));
    WordsCons(b, c + " " + d);
    WordsCons(c, d);
    WordsLast(d);
  }

  lemma AssocBlanks(a: string, b: string, c: string, d: string)
    ensures a + " " + b + " " + c + " " + d == a + " " + (b + " " + (c + " " + d))
  {}

  lemma Ends(first: string, rest: string, last: string)
    requires IsWord(first) && IsWord(last) && first[0] != '"' && last[|last| - 1] != '"'
    requires |rest| >= |last| && rest[|rest| - |last|..] == last
    ensures var s := first + " " + rest; Trim(TrimBy(Trim(s), IsQuote)) == s
  {
    var s := first + " " + rest;
    assert rest[|rest| - 1] == last[|last| - 1];
    assert s[0] == first[0] && s[|s| - 1] == rest[|rest| - 1];
    TrimNothing(s, IsWhitespace);
    TrimNothing(s, IsQuote);
  }

  /** So is a fourth part of a date. */
  lemma FourPartsAreRefused(a: string, b: string, c: string, d: string)
    requires IsWord(a) && IsWord(b) && IsWord(c) && IsWord(d) && '-' !in a && '-' !in b && '-' !in c
    ensures ParseDateOnly(a + "-" + b + "-" + (c + "-" + d)) == Err
  {
    var s := a + "-" + b + "-" + (c + "-" + d);
    PlainConcat(c + "-", d);
    ThreePieces(a, b, c + "-" + d, '-');
    SplitAt(c, '-', d);
    WordIsTrimmed(s);
    assert s == a + ['-'] + b + ['-'] + (c + ['-'] + d);
    var parts := Split(s, '-');
    assert parts == [a, b] + ([c] + Split(d, '-')) && |parts| > 3;
    hide Split, Trim, ParseUnsigned, ParseSigned, MonthNumber, IsWord;
  }

  /** The printer writes one of these. */
  lemma FormattedIsWritten(d: Date, rest: string)
    requires ValidDate(d)
    ensures EqIgnoreCase(MonthName(d.month), MONTH_LETTERS[3 * (d.month - 1)..3 * d.month])
    ensures FormatDate(d) == DateText(d, true, MonthName(d.month)) && Wrapped(rest, false, false) == rest
  {
    MonthsAreLetters(d.month);
  }

  /** Printing then parsing gives the timestamp back exactly when its year is 1 to 9999. */
  lemma DateTimeRoundTrip(timestamp: int)
    ensures ParseDateTime(FormatDateTime(timestamp)) ==
            if 1 <= CivilFromDays(timestamp / 86400).year <= 9999 then Ok(timestamp) else Err
  {
    hide *;
    var seconds := timestamp % 86400;
    var d := CivilFromDays(timestamp / 86400);
    var h, m, s := seconds / 3600, seconds / 60 % 60, seconds % 60;
    DayIsShown(timestamp);
    SecondsOfDay(seconds);
    TextOf(timestamp);
    FormattedIsWritten(d, FormatDate(d) + " " + FormatClock(h, m, s) + " " + "+0000");
    ParseFormatted(d, true, MonthName(d.month), h, m, s, '+', 0, 0, false);
    UtcZone();
    ZoneJoined(FormatDate(d), FormatClock(h, m, s));
  }

  lemma ZoneJoined(date: string, clock: string)
    ensures date + " " + clock + " " + "+0000" == date + " " + (clock + " +0000")
  {}

  /** Two digits of the day, the month's letters, and the year, in four digits from 0 to 9999. */
  predicate ShowsDate(text: string, d: Date) {
    && |text| >= 11 && 1 <= d.month <= 12
    && IsTwoDigits(text[..2], d.day) && text[2] == '-' && text[6] == '-'
    && text[3..6] == MONTH_LETTERS[3 * (d.month - 1)..3 * d.month]
    && (0 <= d.year <= 9999 ==>
          |text| == 11 && IsTwoDigits(text[7..9], d.year / 100) && IsTwoDigits(text[9..11], d.year % 100))
  }

  /** A time of day of two digits each, and the zone of UTC. */
  predicate ShowsClock(text: string, seconds: int) {
    && |text| == 14 && IsTwoDigits(text[..2], seconds / 3600) && text[2] == ':'
    && IsTwoDigits(text[3..5], seconds / 60 % 60) && text[5] == ':'
    && IsTwoDigits(text[6..8], seconds % 60) && text[8..] == " +0000"
  }

  /** Character by character: the printed text shows the date of the timestamp's day, a blank,
      its time of day, and UTC. */
  lemma PrintedFields(timestamp: int)
    ensures var text := FormatDateTime(timestamp);
            && |text| >= 26 && text[|text| - 15] == ' '
            && ShowsDate(text[..|text| - 15], CivilFromDays(timestamp / 86400))
            && ShowsClock(text[|text| - 14..], timestamp % 86400)
  {
    hide *;
    var d, seconds := CivilFromDays(timestamp / 86400), timestamp % 86400;
    DayIsShown(timestamp);
    var date := DateShown(d);
    var clock := ClockShown(seconds);
    TextOf(timestamp);
    assert FormatDateTime(timestamp) == date + " " + clock;
    Halves(date, clock);
  }

  lemma DayIsShown(timestamp: int)
    ensures var d := CivilFromDays(timestamp / 86400);
            && ValidDate(d) && d.day >= 0 && 1 <= d.month <= 12 && DaysFromCivil(d) == timestamp / 86400
            && 0 <= timestamp % 86400 < 86400
  {
    DayRoundTrip(timestamp / 86400);
    hide CivilFromDays, DaysFromCivil;
  }

  lemma Halves(date: string, clock: string)
    requires |clock| == 14
    ensures var text := date + " " + clock;
            var n := |text| - 15;
            n == |date| && text[n] == ' ' && text[..n] == date && text[n + 1..] == clock
  {}

  lemma DateShown(d: Date) returns (text: string)
    requires ValidDate(d)
    ensures text == FormatDate(d) && |text| >= 11 && ShowsDate(text, d)
  {
    DateFields(d);
    text := FormatDate(d);
    hide MONTH_LETTERS, Padded, PaddedInt, MonthName, IsTwoDigits;
    DatePlaces(Padded(d.day, 2), MonthName(d.month), PaddedInt(d.year, 4));
  }

  lemma DatePlaces(day: string, month: string, year: string)
    requires |day| == 2 && |month| == 3 && |year| >= 4
    ensures var text := day + "-" + month + "-" + year;
            && |text| == 7 + |year| && text[7..9] == year[..2] && text[9..11] == year[2..4]
            && text[..2] == day && text[2] == '-' && text[3..6] == month && text[6] == '-'
  {}

  lemma ClockShown(seconds: nat) returns (text: string)
    requires seconds < 86400
    ensures text == FormatClock(seconds / 3600, seconds / 60 % 60, seconds % 60) + " +0000"
    ensures |text| == 14 && ShowsClock(text, seconds)
  {
    var h, m, s := Padded(seconds / 3600, 2), Padded(seconds / 60 % 60, 2), Padded(seconds % 60, 2);
    ClockFields(seconds);
    text := FormatClock(seconds / 3600, seconds / 60 % 60, seconds % 60) + " +0000";
    assert text == h + ":" + m + ":" + s + " +0000";
    hide Padded, IsTwoDigits, FormatClock;
    ClockPlaces(h, m, s);
  }

  lemma ClockPlaces(h: string, m: string, s: string)
    requires |h| == 2 && |m| == 2 && |s| == 2
    ensures var text := h + ":" + m + ":" + s + " +0000";
            && |text| == 14 && text[..2] == h && text[2] == ':' && text[3..5] == m && text[5] == ':'
            && text[6..8] == s && text[8..] == " +0000"
  {}

  lemma DateFields(d: Date)
    requires ValidDate(d)
    ensures 1 <= d.month <= 12 && MonthName(d.month) == MONTH_LETTERS[3 * (d.month - 1)..3 * d.month]
    ensures |MonthName(d.month)| == 3
    ensures d.day >= 0 && IsTwoDigits(Padded(d.day, 2), d.day) && |Padded(d.day, 2)| == 2
    ensures |PaddedInt(d.year, 4)| >= 4
    ensures 0 <= d.year <= 9999 ==>
              && |PaddedInt(d.year, 4)| == 4
              && IsTwoDigits(PaddedInt(d.year, 4)[..2], d.year / 100)
              && IsTwoDigits(PaddedInt(d.year, 4)[2..4], d.year % 100)
  {
    MonthsAreLetters(d.month);
    TwoDigitsShown(d.day);
    YearShown(d.year);
    hide MONTH_LETTERS, Padded, PaddedInt;
  }

  lemma ClockFields(seconds: nat)
    requires seconds < 86400
    ensures IsTwoDigits(Padded(seconds / 3600, 2), seconds / 3600) && |Padded(seconds / 3600, 2)| == 2
    ensures IsTwoDigits(Padded(seconds / 60 % 60, 2), seconds / 60 % 60) && |Padded(seconds / 60 % 60, 2)| == 2
    ensures IsTwoDigits(Padded(seconds % 60, 2), seconds % 60) && |Padded(seconds % 60, 2)| == 2
  {
    TwoDigitsShown(seconds / 3600);
    TwoDigitsShown(seconds / 60 % 60);
    TwoDigitsShown(seconds % 60);
    hide Padded;
  }

  lemma TextOf(timestamp: int)
    requires CivilFromDays(timestamp / 86400).day >= 0
    ensures var seconds := timestamp % 86400;
            FormatDateTime(timestamp)
            == FormatDate(CivilFromDays(timestamp / 86400)) + " "
               + (FormatClock(seconds / 3600, seconds / 60 % 60, seconds % 60) + " +0000")
  {
    hide CivilFromDays, FormatDate, FormatClock;
    MinuteOfDay(timestamp % 86400);
  }

  lemma By60(n: int, q: int, r: int)
    requires n == 60 * q + r && 0 <= r < 60
    ensures n / 60 == q && n % 60 == r
  {}

  lemma MinuteOfDay(seconds: int)
    ensures seconds % 3600 / 60 == seconds / 60 % 60
  {
    var h, r := seconds / 3600, seconds % 3600;
    By60(seconds, 60 * h + r / 60, r % 60);
    By60(60 * h + r / 60, h, r / 60);
  }

  lemma YearShown(year: int)
    ensures |PaddedInt(year, 4)| >= 4
    ensures 0 <= year <= 9999 ==>
              && |PaddedInt(year, 4)| == 4
              && IsTwoDigits(PaddedInt(year, 4)[..2], year / 100) && IsTwoDigits(PaddedInt(year, 4)[2..4], year % 100)
  {
    if 0 <= year <= 9999 {
      var text := PaddedInt(year, 4);
      assert Pow10(4) == 10000 by { assert Pow10(2) == 100; }
      PaddedWidth(year, 4);
      PaddedValue(year, 4);
      hide Padded;
      FourDigits(text);
      assert text[2..4] == text[2..];
    }
  }

  lemma FourDigits(s: string)
    requires |s| == 4 && AllDigits(s)
    ensures IsTwoDigits(s[..2], NumberValue(s) / 100) && IsTwoDigits(s[2..], NumberValue(s) % 100)
  {
    var high, low := s[..2], s[2..];
    TwoDigitsValue(high);
    TwoDigitsValue(low);
    assert s[..3][..2] == high && low[..1] == [s[2]] && low[..1][..0] == [];
    assert NumberValue(low[..1]) == DigitValue(s[2]);
    assert NumberValue(s) == 10 * NumberValue(s[..3]) + DigitValue(s[3]);
    assert NumberValue(s[..3]) == 10 * NumberValue(high) + DigitValue(s[2]);
    assert NumberValue(s) == 100 * NumberValue(high) + NumberValue(low);
  }

  lemma UtcZone()
    ensures FormatZone('+', 0, 0) == "+0000"
  {
    assert Padded(0, 2) == "00";
  }

  lemma SecondsOfDay(seconds: int)
    requires 0 <= seconds < 86400
    ensures seconds / 3600 * 3600 + seconds / 60 % 60 * 60 + seconds % 60 == seconds
    ensures 0 <= seconds / 3600 < 24 && 0 <= seconds / 60 % 60 < 60 && 0 <= seconds % 60 < 60
  {
    var h, r := seconds / 3600, seconds % 3600;
    By60(seconds, 60 * h + r / 60, r % 60);
    By60(60 * h + r / 60, h, r / 60);
  }
}
