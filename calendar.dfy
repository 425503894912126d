/**
 * The proleptic Gregorian calendar as far as Y_Sche.py uses it: day
 * arithmetic with timedelta(days=n), date.replace(day=1), date comparison,
 * strftime('%Y%m') and the check datetime.strptime(s, "%Y/%m/%d").
 */
module Calendar {
  import opened Common

  datatype Date = Date(year: int, month: int, day: int)

  predicate IsLeap(y: int) {
    (y % 4 == 0 && y % 100 != 0) || y % 400 == 0
  }

  function DaysInMonth(y: int, m: int): (r: int)
    requires 1 <= m <= 12
    ensures 28 <= r <= 31
    ensures r < 30 <==> m == 2
    ensures r == 29 <==> m == 2 && IsLeap(y)
  {
    if m == 2 then (if IsLeap(y) then 29 else 28)
    else if m == 4 || m == 6 || m == 9 || m == 11 then 30
    else 31
  }

  /** A calendar date (no bound on the year). */
  predicate Valid(d: Date) {
    1 <= d.month <= 12 && 1 <= d.day <= DaysInMonth(d.year, d.month)
  }

  /** date <= date: tuple order on (year, month, day). */
  predicate Le(a: Date, b: Date) {
    a.year < b.year || (a.year == b.year && (a.month < b.month || (a.month == b.month && a.day <= b.day)))
  }

  /** Months counted from year 0, so consecutive months differ by one. */
  function MonthIndex(d: Date): int {
    d.year * 12 + d.month - 1
  }

  function FirstOfNextMonth(d: Date): (r: Date)
    requires Valid(d)
    ensures Valid(r) && r.day == 1 && MonthIndex(r) == MonthIndex(d) + 1
  {
    if d.month == 12 then Date(d.year + 1, 1, 1) else Date(d.year, d.month + 1, 1)
  }

  /** d.replace(day=1) */
  function FirstOfMonth(d: Date): Date {
    Date(d.year, d.month, 1)
  }

  /** Days of year y before its month m: the cumulative month table, plus
      the leap day from March on. */
  function DaysBeforeMonth(y: int, m: int): int
    requires 1 <= m <= 12
  {
    [0, 31, 59, 90, 120, 151, 181, 212, 243, 273, 304, 334][m - 1] + (if m > 2 && IsLeap(y) then 1 else 0)
  }

  /** Days before January 1 of year y, counted from year 1. */
  function DaysBeforeYear(y: int): int {
    var p := y - 1;
    365 * p + p / 4 - p / 100 + p / 400
  }

  /** date.toordinal(): January 1 of year 1 is day 1. */
  function DayNumber(d: Date): int
    requires Valid(d)
  {
    DaysBeforeYear(d.year) + DaysBeforeMonth(d.year, d.month) + d.day
  }

  /** A year holds 365 days, 366 in a leap year. */
  lemma YearLength(y: int)
    ensures DaysBeforeYear(y + 1) == DaysBeforeYear(y) + (if IsLeap(y) then 366 else 365)
  {
    assert y / 4 - (y - 1) / 4 == if y % 4 == 0 then 1 else 0;
    assert y / 100 - (y - 1) / 100 == if y % 100 == 0 then 1 else 0;
    assert y / 400 - (y - 1) / 400 == if y % 400 == 0 then 1 else 0;
  }

  /** The first of the next month comes the rest of this month later. */
  lemma NextMonthDayNumber(d: Date)
    requires Valid(d)
    ensures DayNumber(FirstOfNextMonth(d)) == DayNumber(d) + DaysInMonth(d.year, d.month) - d.day + 1
  {
    if d.month == 12 {
      YearLength(d.year);
    }
  }

  /** d - timedelta(days=1) */
  function PrevDay(d: Date): (r: Date)
    requires Valid(d)
    ensures Valid(r)
  {
    if d.day > 1 then Date(d.year, d.month, d.day - 1)
    else if d.month == 1 then Date(d.year - 1, 12, 31)
    else Date(d.year, d.month - 1, DaysInMonth(d.year, d.month - 1))
  }

  /** d + timedelta(days=n) */
  function AddDays(d: Date, n: nat): (r: Date)
    requires Valid(d)
    ensures Valid(r)
    decreases n
  {
    var dim := DaysInMonth(d.year, d.month);
    if d.day + n <= dim then Date(d.year, d.month, d.day + n)
    else AddDays(FirstOfNextMonth(d), n - (dim - d.day + 1))
  }

  /** timedelta(days=1) subtracted is one day earlier in the day count. */
  lemma PrevDayDayNumber(d: Date)
    requires Valid(d)
    ensures DayNumber(PrevDay(d)) == DayNumber(d) - 1
  {
    if d.month == 1 && d.day == 1 {
      YearLength(d.year - 1);
    }
  }

  /** timedelta(days=n) added is n days later in the day count. */
  lemma {:induction false} AddDaysDayNumber(d: Date, n: nat)
    requires Valid(d)
    ensures DayNumber(AddDays(d, n)) == DayNumber(d) + n
    decreases n
  {
    var dim := DaysInMonth(d.year, d.month);
    if d.day + n > dim {
      NextMonthDayNumber(d);
      AddDaysDayNumber(FirstOfNextMonth(d), n - (dim - d.day + 1));
    }
  }

  /** start_date: (today.replace(day=1) - timedelta(days=1)).replace(day=1). */
  function WalkStart(today: Date): Date
    requires Valid(today)
  {
    FirstOfMonth(PrevDay(FirstOfMonth(today)))
  }

  /** The walk starts on the first of the month before today's. */
  lemma WalkStartIsPreviousMonth(today: Date)
    requires Valid(today)
    ensures Valid(WalkStart(today)) && WalkStart(today).day == 1
    ensures MonthIndex(WalkStart(today)) == MonthIndex(today) - 1
  {
  }

  /** end_date: start_date + timedelta(days=90). */
  function WalkEnd(start: Date): Date
    requires Valid(start)
  {
    AddDays(start, 90)
  }

  /** One step of the walk: (d + timedelta(days=31)).replace(day=1). Its
      result is always a first of month, so the correction that follows it in
      the source (taken when the day is not 1) is unreachable and is not
      modelled. */
  function Step(d: Date): (r: Date)
    requires Valid(d)
    ensures Valid(r) && r.day == 1
  {
    FirstOfMonth(AddDays(d, 31))
  }

  /** From a first of month, a step lands on the first of the very next month
      (31 days never skip a month when counted from a first). */
  lemma StepIsNextMonth(d: Date)
    requires Valid(d) && d.day == 1
    ensures Step(d) == FirstOfNextMonth(d)
  {
    var dim := DaysInMonth(d.year, d.month);
    var n := FirstOfNextMonth(d);
    assert AddDays(d, 31) == AddDays(n, 31 - dim);
    assert AddDays(n, 31 - dim) == Date(n.year, n.month, 1 + 31 - dim);
  }

  /** For a first of month a and a valid b: a <= b exactly when a's month is
      not after b's. */
  lemma LeFirstOfMonth(a: Date, b: Date)
    requires Valid(a) && a.day == 1 && Valid(b)
    ensures Le(a, b) <==> MonthIndex(a) <= MonthIndex(b)
  {
  }

  /** The month walk's visited dates: while current <= end, visit and step. */
  function Walk(cur: Date, end: Date): (r: seq<Date>)
    requires Valid(cur) && cur.day == 1 && Valid(end)
    ensures forall i :: 0 <= i < |r| ==> Valid(r[i]) && r[i].day == 1 && Le(r[i], end)
    ensures forall i :: 0 <= i < |r| ==> MonthIndex(r[i]) == MonthIndex(cur) + i
    decreases MonthIndex(end) - MonthIndex(cur) + 1
  {
    LeFirstOfMonth(cur, end);
    if Le(cur, end) then
      StepIsNextMonth(cur);
      [cur] + Walk(Step(cur), end)
    else []
  }

  /** One step of the walk: the current month, then the walk from the next. */
  lemma WalkUnfold(cur: Date, end: Date)
    requires Valid(cur) && cur.day == 1 && Valid(end)
    ensures Le(cur, end) ==> Walk(cur, end) == [cur] + Walk(Step(cur), end)
    ensures !Le(cur, end) ==> Walk(cur, end) == []
  {
  }

  /** Three consecutive months hold 89 to 92 days. */
  lemma ThreeMonthSpan(s: Date)
    requires Valid(s)
    ensures var n1 := FirstOfNextMonth(s); var n2 := FirstOfNextMonth(n1);
      89 <= DaysInMonth(s.year, s.month) + DaysInMonth(n1.year, n1.month) + DaysInMonth(n2.year, n2.month) <= 92
  {
  }

  /** start + 90 days lies late in the month two after start (day 29 or
      later) or early in the month three after it (day 1 or 2). */
  lemma {:induction false} EndShape(s: Date)
    requires Valid(s) && s.day == 1
    ensures var e := WalkEnd(s);
      || (MonthIndex(e) == MonthIndex(s) + 2 && e.day >= 29)
      || (MonthIndex(e) == MonthIndex(s) + 3 && e.day <= 2)
  {
    var n1 := FirstOfNextMonth(s);
    var n2 := FirstOfNextMonth(n1);
    var n3 := FirstOfNextMonth(n2);
    var l0 := DaysInMonth(s.year, s.month);
    var l1 := DaysInMonth(n1.year, n1.month);
    var l2 := DaysInMonth(n2.year, n2.month);
    ThreeMonthSpan(s);
    assert AddDays(s, 90) == AddDays(n1, 90 - l0);
    assert AddDays(n1, 90 - l0) == AddDays(n2, 90 - l0 - l1);
    if 1 + 90 - l0 - l1 <= l2 {
      assert AddDays(n2, 90 - l0 - l1) == Date(n2.year, n2.month, 91 - l0 - l1);
    } else {
      assert AddDays(n2, 90 - l0 - l1) == AddDays(n3, 90 - l0 - l1 - l2);
      assert AddDays(n3, 90 - l0 - l1 - l2) == Date(n3.year, n3.month, 91 - l0 - l1 - l2);
    }
  }

  /** The walk from the start visits 3 or 4 consecutive months, all no later
      than start + 90 days. */
  lemma {:induction false} WalkLength(s: Date)
    requires Valid(s) && s.day == 1
    ensures |Walk(s, WalkEnd(s))| == 3 || |Walk(s, WalkEnd(s))| == 4
  {
    var e := WalkEnd(s);
    EndShape(s);
    var m0 := s;
    var m1 := Step(m0);
    StepIsNextMonth(m0);
    var m2 := Step(m1);
    StepIsNextMonth(m1);
    var m3 := Step(m2);
    StepIsNextMonth(m2);
    var m4 := Step(m3);
    StepIsNextMonth(m3);
    LeFirstOfMonth(m0, e);
    LeFirstOfMonth(m1, e);
    LeFirstOfMonth(m2, e);
    LeFirstOfMonth(m3, e);
    LeFirstOfMonth(m4, e);
    assert Walk(m0, e) == [m0] + Walk(m1, e);
    assert Walk(m1, e) == [m1] + Walk(m2, e);
    assert Walk(m2, e) == [m2] + Walk(m3, e);
    if Le(m3, e) {
      assert Walk(m3, e) == [m3] + Walk(m4, e);
      assert Walk(m4, e) == [];
    } else {
      assert Walk(m3, e) == [];
    }
  }

  // ---------------------------------------------------------------------------
  // Text forms of dates.

  predicate IsDigit(c: char) {
    '0' <= c <= '9'
  }

  function DigitValue(c: char): int
    requires IsDigit(c)
  {
    c as int - '0' as int
  }

  function DigitChar(k: int): (c: char)
    requires 0 <= k <= 9
    ensures IsDigit(c) && DigitValue(c) == k
  {
    ('0' as int + k) as char
  }

  /** strftime('%Y%m') for a year of four digits. */
  function YearMonthText(d: Date): (r: string)
    requires 1000 <= d.year <= 9999 && 1 <= d.month <= 12
    ensures |r| == 6
  {
    [DigitChar(d.year / 1000), DigitChar(d.year / 100 % 10), DigitChar(d.year / 10 % 10),
     DigitChar(d.year % 10), DigitChar(d.month / 10), DigitChar(d.month % 10)]
  }

  /** The %m regex 1[0-2]|0[1-9]|[1-9], which must match the whole field. */
  function MonthField(t: string): Option<int> {
    if |t| == 1 && '1' <= t[0] <= '9' then Some(DigitValue(t[0]))
    else if |t| == 2 && t[0] == '1' && '0' <= t[1] <= '2' then Some(10 + DigitValue(t[1]))
    else if |t| == 2 && t[0] == '0' && '1' <= t[1] <= '9' then Some(DigitValue(t[1]))
    else None
  }

  /** The %d regex 3[01]|[12]\d|0[1-9]|[1-9]| [1-9], which must match the
      remainder of the string. */
  function DayField(t: string): (r: Option<int>)
    ensures r.Some? ==> 1 <= r.value <= 31
  {
    if |t| == 1 && '1' <= t[0] <= '9' then Some(DigitValue(t[0]))
    else if |t| == 2 && t[0] == ' ' && '1' <= t[1] <= '9' then Some(DigitValue(t[1]))
    else if |t| == 2 && t[0] == '0' && '1' <= t[1] <= '9' then Some(DigitValue(t[1]))
    else if |t| == 2 && (t[0] == '1' || t[0] == '2') && IsDigit(t[1]) then Some(10 * DigitValue(t[0]) + DigitValue(t[1]))
    else if |t| == 2 && t[0] == '3' && (t[1] == '0' || t[1] == '1') then Some(30 + DigitValue(t[1]))
    else None
  }

  /** datetime.strptime(s, "%Y/%m/%d"): the parsed date, or None where Python
      raises ValueError (no match, unconverted data, year 0, day out of range). */
  function ParseSlashDate(s: string): (r: Option<Date>)
    ensures r.Some? ==> Valid(r.value) && 1 <= r.value.year <= 9999
  {
    if |s| < 5 || !(IsDigit(s[0]) && IsDigit(s[1]) && IsDigit(s[2]) && IsDigit(s[3])) || s[4] != '/' then None
    else
      var y := 1000 * DigitValue(s[0]) + 100 * DigitValue(s[1]) + 10 * DigitValue(s[2]) + DigitValue(s[3]);
      var rest := s[5..];
      var cut := if |rest| >= 2 && rest[1] == '/' then 1 else if |rest| >= 3 && rest[2] == '/' then 2 else 0;
      if cut == 0 then None
      else
        match (MonthField(rest[..cut]), DayField(rest[cut + 1..]))
        case (Some(m), Some(dd)) =>
          if 1 <= y && 1 <= m <= 12 && dd <= DaysInMonth(y, m) then Some(Date(y, m, dd)) else None
        case _ => None
  }

  /** The date string Y_Sche.py builds for a day block of month d:
      yyyymm[:4] + "/" + yyyymm[4:] + "/" + the day tag's text. */
  function DayBlockDate(d: Date, dayText: string): string
    requires 1000 <= d.year <= 9999 && 1 <= d.month <= 12
  {
    var ym := YearMonthText(d);
    ym[..4] + "/" + ym[4..] + "/" + dayText
  }

  lemma YearDigits(y: int)
    requires 1000 <= y <= 9999
    ensures 1000 * (y / 1000) + 100 * (y / 100 % 10) + 10 * (y / 10 % 10) + y % 10 == y
  {
    var a, b, c, e := y / 1000, y / 100 % 10, y / 10 % 10, y % 10;
    assert y / 100 == 10 * a + b;
    assert y / 10 == 10 * (y / 100) + c;
    assert y == 10 * (y / 10) + e;
  }

  /** The year and month fields of YearMonthText read back as the date's. */
  lemma YearMonthTextFields(d: Date)
    requires 1000 <= d.year <= 9999 && 1 <= d.month <= 12
    ensures var ym := YearMonthText(d);
      && IsDigit(ym[0]) && IsDigit(ym[1]) && IsDigit(ym[2]) && IsDigit(ym[3])
      && 1000 * DigitValue(ym[0]) + 100 * DigitValue(ym[1]) + 10 * DigitValue(ym[2]) + DigitValue(ym[3]) == d.year
      && MonthField(ym[4..]) == Some(d.month)
  {
    YearDigits(d.year);
  }

  /** A day block's date parses exactly when its day text is a %d field
      naming a day of that month, and then it names that very date. */
  lemma DayBlockDateParses(d: Date, dayText: string)
    requires 1000 <= d.year <= 9999 && 1 <= d.month <= 12
    ensures var r := ParseSlashDate(DayBlockDate(d, dayText));
      && (r.Some? <==> DayField(dayText).Some? && DayField(dayText).value <= DaysInMonth(d.year, d.month))
      && (r.Some? ==> r.value == Date(d.year, d.month, DayField(dayText).value))
  {
    var ym := YearMonthText(d);
    YearMonthTextFields(d);
    var s := DayBlockDate(d, dayText);
    assert s[0] == ym[0] && s[1] == ym[1] && s[2] == ym[2] && s[3] == ym[3] && s[4] == '/';
    var rest := s[5..];
    assert rest == ym[4..] + "/" + dayText;
    assert rest[..2] == ym[4..];
    assert rest[2] == '/';
    assert rest[3..] == dayText;
  }
}
