/** The civil-date / day-number pair of the IMAP date code: closed forms over
    400-year eras, compared with counting days one by one on the Gregorian
    calendar. */
module CivilCalendar {
  import opened Text

  /** A proleptic Gregorian date; the year may be zero or negative. */
  datatype Date = Date(year: int, month: int, day: int)

  /** Rust's `/` on signed integers: rounds toward zero. */
  function TruncDiv(a: int, b: int): int
    requires b > 0
  {
    if a >= 0 then a / b else -((-a) / b)
  }

  predicate IsLeap(year: int) {
    (year % 4 == 0 && year % 100 != 0) || year % 400 == 0
  }

  function DaysInMonth(year: int, month: int): int {
    if month in {1, 3, 5, 7, 8, 10, 12} then 31
    else if month in {4, 6, 9, 11} then 30
    else if month == 2 then (if IsLeap(year) then 29 else 28)
    else 0
  }

  predicate ValidDate(d: Date) {
    1 <= d.month <= 12 && 1 <= d.day <= DaysInMonth(d.year, d.month)
  }

  // ---------------------------------------------------------------- closed forms

  function DaysFromCivil(d: Date): int {
    var y := if d.month <= 2 then d.year - 1 else d.year;
    var era := TruncDiv(if y >= 0 then y else y - 399, 400);
    var yoe := y - era * 400;
    var mp := if d.month > 2 then d.month - 3 else d.month + 9;
    var doy := TruncDiv(153 * mp + 2, 5) + d.day - 1;
    var doe := yoe * 365 + TruncDiv(yoe, 4) - TruncDiv(yoe, 100) + doy;
    era * 146097 + doe - 719468
  }

  function CivilFromDays(days: int): Date {
    var z := days + 719468;
    var era := TruncDiv(if z >= 0 then z else z - 146096, 146097);
    var doe := z - era * 146097;
    var yoe := YearOfEra(doe);
    var y := yoe + era * 400;
    var doy := doe - (365 * yoe + TruncDiv(yoe, 4) - TruncDiv(yoe, 100));
    var mp := TruncDiv(5 * doy + 2, 153);
    var day := doy - TruncDiv(153 * mp + 2, 5) + 1;
    var month := if mp < 10 then mp + 3 else mp - 9;
    Date(if month <= 2 then y + 1 else y, month, day)
  }

  function YearOfEra(doe: int): int {
    TruncDiv(doe - TruncDiv(doe, 1460) + TruncDiv(doe, 36524) - TruncDiv(doe, 146096), 365)
  }

  // ---------------------------------------------------------------- counting calendar

  /** The next day on the wall calendar. */
  function NextDay(d: Date): Date {
    if d.day < DaysInMonth(d.year, d.month) then d.(day := d.day + 1)
    else if d.month < 12 then Date(d.year, d.month + 1, 1)
    else Date(d.year + 1, 1, 1)
  }

  /** The previous day on the wall calendar. */
  function PrevDay(d: Date): Date {
    if d.day > 1 then d.(day := d.day - 1)
    else if d.month > 1 then Date(d.year, d.month - 1, DaysInMonth(d.year, d.month - 1))
    else Date(d.year - 1, 12, 31)
  }

  const EPOCH := Date(1970, 1, 1)

  /** The date reached from 1 Jan 1970 by walking `n` days, backwards when negative. */
  function Walk(n: int): Date
    decreases if n < 0 then -n else n
  {
    if n == 0 then EPOCH
    else if n > 0 then NextDay(Walk(n - 1))
    else PrevDay(Walk(n + 1))
  }

  // ---------------------------------------------------------------- proofs

  /** Days before 1 March of year `y` of an era, counted from 1 March of its year 0. */
  function YearStart(y: int): int {
    365 * y + y / 4 - y / 100
  }

  /** A day of an era as century, four-year cycle, year and day within the year. */
  predicate IsSplit(doe: int, c: int, q: int, k: int, t: int) {
    && 0 <= c <= 3 && 0 <= q <= 24 && 0 <= k <= 3 && 0 <= t <= 365
    && doe == 36524 * c + 1461 * q + 365 * k + t
    && (t == 365 ==> k == 3 && (q < 24 || c == 3))
  }

  /** Every day of an era has such a split. */
  lemma SplitExists(doe: int) returns (c: int, q: int, k: int, t: int)
    requires 0 <= doe < 146097
    ensures IsSplit(doe, c, q, k, t)
  {
    c := if doe == 146096 then 3 else doe / 36524;
    var r := doe - 36524 * c;
    q := r / 1461;
    var s := r - 1461 * q;
    k := if s == 1460 then 3 else s / 365;
    t := s - 365 * k;
  }

  /** The division by 365 with its three corrections finds the year of a split day. */
  lemma YearOfSplit(doe: int, c: int, q: int, k: int, t: int)
    requires IsSplit(doe, c, q, k, t)
    ensures 0 <= doe < 146097
    ensures YearOfEra(doe) == 100 * c + 4 * q + k
    ensures doe == YearStart(100 * c + 4 * q + k) + t
  {
    var e := if 24 * c + q + 365 * k + t >= 1460 then 1 else 0;
    assert doe / 1460 == 25 * c + q + e;
    assert doe / 36524 - doe / 146096 == c;
    var y := 100 * c + 4 * q + k;
    assert doe - doe / 1460 + doe / 36524 - doe / 146096 == 365 * y + (t - e);
    assert 0 <= t - e <= 364;
    assert y / 4 == 25 * c + q && y / 100 == c;
  }

  /** A date as era, year of era starting in March, and day of that year. */
  function FromParts(era: int, yoe: int, doy: int): Date {
    var mp := (5 * doy + 2) / 153;
    var y := yoe + era * 400;
    Date(if mp < 10 then y else y + 1, if mp < 10 then mp + 3 else mp - 9, doy - (153 * mp + 2) / 5 + 1)
  }

  /** `t` is a day of the March-based year `yoe`; only years ending in a leap day have day 365. */
  predicate IsYearDay(yoe: int, t: int) {
    0 <= yoe < 400 && 0 <= t <= 365 && (t == 365 ==> IsLeap(yoe + 1))
  }

  lemma ModShift(a: int, k: int, m: int)
    requires m > 0
    ensures (a + k * m) % m == a % m
  {
    var q, r := a / m, a % m;
    assert a + k * m == (q + k) * m + r;
    QuotientIsUnique((q + k) * m + r, q + k, r, m);
  }

  lemma QuotientIsUnique(a: int, q: int, r: int, m: int)
    requires a == q * m + r && 0 <= r < m
    ensures a / m == q && a % m == r
  {
    var d := a / m - q;
    assert d * m == r - a % m;
    assert d >= 1 ==> d * m >= m;
    assert d <= -1 ==> d * m <= -m;
  }

  lemma LeapShift(era: int, y: int)
    ensures IsLeap(y + era * 400) == IsLeap(y)
  {
    ModShift(y, era * 100, 4);
    ModShift(y, era * 4, 100);
    ModShift(y, era, 400);
  }

  /** The closed form of a day number, in the same parts. */
  lemma DaysFromParts(era: int, yoe: int, doy: int)
    requires IsYearDay(yoe, doy)
    ensures ValidDate(FromParts(era, yoe, doy))
    ensures DaysFromCivil(FromParts(era, yoe, doy)) == era * 146097 + YearStart(yoe) + doy - 719468
  {
    LeapShift(era, yoe + 1);
    assert era * 400 + yoe + 1 == (yoe + 1) + era * 400;
    var d := FromParts(era, yoe, doy);
    var y := yoe + era * 400;
    assert TruncDiv(if y >= 0 then y else y - 399, 400) == era;
    assert 0 <= (5 * doy + 2) / 153 <= 11;
  }

  lemma SplitOfYear(yoe: int, doy: int)
    requires IsYearDay(yoe, doy)
    ensures IsSplit(YearStart(yoe) + doy, yoe / 100, yoe % 100 / 4, yoe % 4, doy)
  {
    YearParts(yoe);
    var c, q, k := yoe / 100, yoe % 100 / 4, yoe % 4;
    assert yoe / 4 == 25 * c + q;
  }

  lemma EraOfDay(era: int, doe: int)
    requires 0 <= doe < 146097
    ensures var z := era * 146097 + doe; TruncDiv(if z >= 0 then z else z - 146096, 146097) == era
  {}

  /** The date of a split day of an era, in parts. */
  lemma CivilOfEra(era: int, doe: int, c: int, q: int, k: int, t: int)
    requires IsSplit(doe, c, q, k, t)
    ensures CivilFromDays(era * 146097 + doe - 719468) == FromParts(era, 100 * c + 4 * q + k, t)
  {
    hide YearOfEra, TruncDiv;
    YearOfSplit(doe, c, q, k, t);
    EraOfDay(era, doe);
    var yoe := 100 * c + 4 * q + k;
    var mp := (5 * t + 2) / 153;
    TruncIsFloor(yoe, 4);
    TruncIsFloor(yoe, 100);
    TruncIsFloor(5 * t + 2, 153);
    TruncIsFloor(153 * mp + 2, 5);
  }

  lemma TruncIsFloor(a: int, b: int)
    requires a >= 0 && b > 0
    ensures TruncDiv(a, b) == a / b
  {}

  /** The closed form of a date, in parts. */
  lemma CivilFromParts(era: int, yoe: int, doy: int)
    requires IsYearDay(yoe, doy)
    ensures CivilFromDays(era * 146097 + YearStart(yoe) + doy - 719468) == FromParts(era, yoe, doy)
  {
    hide *;
    SplitOfYear(yoe, doy);
    YearParts(yoe);
    CivilOfEra(era, YearStart(yoe) + doy, yoe / 100, yoe % 100 / 4, yoe % 4, doy);
  }

  lemma YearParts(yoe: int)
    ensures 100 * (yoe / 100) + 4 * (yoe % 100 / 4) + yoe % 4 == yoe
  {
    var c, r := yoe / 100, yoe % 100;
    By4(yoe, 25 * c + r / 4, r % 4);
  }

  lemma By4(n: int, q: int, r: int)
    requires n == 4 * q + r && 0 <= r < 4
    ensures n / 4 == q && n % 4 == r
  {}

  lemma PartsOfDay(days: int) returns (era: int, yoe: int, doy: int)
    ensures IsYearDay(yoe, doy)
    ensures days == era * 146097 + YearStart(yoe) + doy - 719468
  {
    var z := days + 719468;
    era := z / 146097;
    var doe := z % 146097;
    assert z == era * 146097 + doe;
    var c, q, k, t := SplitExists(doe);
    YearOfSplit(doe, c, q, k, t);
    yoe, doy := 100 * c + 4 * q + k, t;
    SplitIsYearDay(c, q, k, t, doe);
  }

  lemma SplitIsYearDay(c: int, q: int, k: int, t: int, doe: int)
    requires IsSplit(doe, c, q, k, t)
    ensures IsYearDay(100 * c + 4 * q + k, t)
  {}

  lemma PartsOfDate(d: Date) returns (era: int, yoe: int, doy: int)
    requires ValidDate(d)
    ensures IsYearDay(yoe, doy)
    ensures d == FromParts(era, yoe, doy)
  {
    var y := if d.month <= 2 then d.year - 1 else d.year;
    era, yoe := y / 400, y % 400;
    var mp := if d.month > 2 then d.month - 3 else d.month + 9;
    doy := (153 * mp + 2) / 5 + d.day - 1;
    LeapShift(era, yoe + 1);
    assert y + 1 == (yoe + 1) + era * 400;
  }

  /** For every integer day number the computed date is real and maps back to it. */
  lemma DayRoundTrip(days: int)
    ensures ValidDate(CivilFromDays(days))
    ensures DaysFromCivil(CivilFromDays(days)) == days
  {
    hide *;
    var era, yoe, doy := PartsOfDay(days);
    CivilFromParts(era, yoe, doy);
    DaysFromParts(era, yoe, doy);
  }

  /** For every real date the computed day number maps back to it. */
  lemma DateRoundTrip(d: Date)
    requires ValidDate(d)
    ensures CivilFromDays(DaysFromCivil(d)) == d
  {
    hide *;
    var era, yoe, doy := PartsOfDate(d);
    DaysFromParts(era, yoe, doy);
    CivilFromParts(era, yoe, doy);
  }

  /** The next date on the wall calendar has the next day number. */
  lemma SuccessorAddsOne(d: Date)
    requires ValidDate(d)
    ensures ValidDate(NextDay(d))
    ensures DaysFromCivil(NextDay(d)) == DaysFromCivil(d) + 1
  {
    hide DaysFromCivil;
    var era, yoe, doy := PartsOfDate(d);
    DaysFromParts(era, yoe, doy);
    NextOfParts(era, yoe, doy);
    if IsYearDay(yoe, doy + 1) {
      DaysFromParts(era, yoe, doy + 1);
    } else {
      YearLength(yoe, doy);
      if yoe < 399 {
        DaysFromParts(era, yoe + 1, 0);
      } else {
        DaysFromParts(era + 1, 0, 0);
        assert FromParts(era, yoe + 1, 0) == FromParts(era + 1, 0, 0);
      }
    }
  }

  /** The successor in parts: next day of the year, next year of the era, or next era. */
  lemma NextOfParts(era: int, yoe: int, doy: int)
    requires IsYearDay(yoe, doy)
    ensures NextDay(FromParts(era, yoe, doy)) ==
            if IsYearDay(yoe, doy + 1) then FromParts(era, yoe, doy + 1)
            else FromParts(era, yoe + 1, 0)
  {
    hide IsLeap;
    LeapShift(era, yoe + 1);
    assert era * 400 + yoe + 1 == (yoe + 1) + era * 400;
    var mp := (5 * doy + 2) / 153;
    assert 0 <= mp <= 11;
    assert (5 * (doy + 1) + 2) / 153 == if 153 * mp + 153 <= 5 * doy + 7 then mp + 1 else mp;
  }

  lemma YearLength(yoe: int, doy: int)
    requires IsYearDay(yoe, doy) && !IsYearDay(yoe, doy + 1)
    ensures YearStart(yoe) + doy + 1 == if yoe < 399 then YearStart(yoe + 1) else 146097
  {}

  lemma PrevDayInverts(d: Date)
    requires ValidDate(d)
    ensures ValidDate(PrevDay(d)) && NextDay(PrevDay(d)) == d
  {}

  /** Both closed forms agree with counting days one by one from 1 Jan 1970. */
  lemma {:induction false} ClosedFormsCountDays(n: int)
    ensures ValidDate(Walk(n))
    ensures DaysFromCivil(Walk(n)) == n
    ensures CivilFromDays(n) == Walk(n)
    decreases if n < 0 then -n else n
  {
    hide CivilFromDays;
    if n > 0 {
      ClosedFormsCountDays(n - 1);
      SuccessorAddsOne(Walk(n - 1));
    } else if n < 0 {
      ClosedFormsCountDays(n + 1);
      PrevDayInverts(Walk(n + 1));
      SuccessorAddsOne(Walk(n));
    }
    DateRoundTrip(Walk(n));
  }

  // ---------------------------------------------------------------- 64-bit arithmetic

  predicate InI64(n: int) {
    I64_MIN <= n <= I64_MAX
  }

  /** Every intermediate value of the closed form of a date stays within 64 bits. */
  predicate CivilFits(days: int) {
    var z := days + 719468;
    var numerator := if z >= 0 then z else z - 146096;
    var era := TruncDiv(numerator, 146097);
    var doe := z - era * 146097;
    var yoe := YearOfEra(doe);
    && InI64(z) && InI64(numerator) && InI64(era * 146097) && InI64(doe)
    && InI64(doe - TruncDiv(doe, 1460) + TruncDiv(doe, 36524) - TruncDiv(doe, 146096))
    && InI64(era * 400) && InI64(yoe + era * 400 + 1)
    && InI64(365 * yoe + TruncDiv(yoe, 4)) && InI64(5 * doe + 2)
  }

  /** On 64-bit day numbers the first addition is all that can overflow. */
  lemma CivilFitsExactly(days: int)
    requires InI64(days)
    ensures CivilFits(days) <==> days <= I64_MAX - 719468
  {
    var z := days + 719468;
    if z <= I64_MAX {
      var era, doe := z / 146097, z % 146097;
      EraOfDay(era, doe);
      assert z == era * 146097 + doe;
      var c, q, k, t := SplitExists(doe);
      YearOfSplit(doe, c, q, k, t);
      var yoe := YearOfEra(doe);
      assert 0 <= yoe <= 399;
      TruncIsFloor(yoe, 4);
      TruncIsFloor(doe, 1460);
      TruncIsFloor(doe, 36524);
      TruncIsFloor(doe, 146096);
      hide TruncDiv, YearOfEra;
    }
  }

  /** So every 64-bit timestamp is printed without overflow. */
  lemma TimestampFits(timestamp: int)
    requires InI64(timestamp)
    ensures CivilFits(timestamp / 86400)
  {
    CivilFitsExactly(timestamp / 86400);
    hide CivilFits;
  }

  /** And every date a parser accepts is numbered, and made a timestamp, without overflow. */
  lemma AcceptedDateFits(d: Date, clock: int, offset: int)
    requires ValidDate(d) && 1 <= d.year <= 9999 && 0 <= clock <= 86400 && -86400 < offset < 86400
    ensures -719162 <= DaysFromCivil(d) <= 2932896
    ensures InI64(DaysFromCivil(d) * 86400 + clock - offset)
  {}
}
