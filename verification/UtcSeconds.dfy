/** The typed volatile values: exact UTC seconds, bound to a measured window (app/hwpx_saved_proof.py). */
module UtcSeconds {
  import opened Text

  predicate TwoDigits(s: string, i: nat)
    requires i + 2 <= |s|
  {
    IsDigit(s[i]) && IsDigit(s[i + 1])
  }

  function Number(s: string, i: nat): nat
    requires i + 2 <= |s| && TwoDigits(s, i)
  {
    10 * DigitOf(s[i]) + DigitOf(s[i + 1])
  }

  /** The form YYYY-MM-DDThh:mm:ssZ. */
  predicate Stamped(s: string) {
    && |s| == 20
    && TwoDigits(s, 0) && TwoDigits(s, 2) && s[4] == '-' && TwoDigits(s, 5) && s[7] == '-' && TwoDigits(s, 8)
    && s[10] == 'T' && TwoDigits(s, 11) && s[13] == ':' && TwoDigits(s, 14) && s[16] == ':' && TwoDigits(s, 17)
    && s[19] == 'Z'
  }

  predicate Leap(year: nat) {
    year % 4 == 0 && (year % 100 != 0 || year % 400 == 0)
  }

  function DaysIn(year: nat, month: nat): nat {
    if month == 2 then if Leap(year) then 29 else 28
    else if month == 4 || month == 6 || month == 9 || month == 11 then 30
    else 31
  }

  /** Days of the year before a month. */
  function DaysBefore(year: nat, month: nat): nat
    requires 1 <= month
  {
    if month == 1 then 0 else DaysBefore(year, month - 1) + DaysIn(year, month - 1)
  }

  /** Days from the first of January of year 1. */
  function Day(year: nat, month: nat, day: nat): nat
    requires 1 <= year && 1 <= month && 1 <= day
  {
    var full := year - 1;
    365 * full + full / 4 - full / 100 + full / 400 + DaysBefore(year, month) + day - 1
  }

  /** _utc_second: the moment in seconds; None for a text that is no moment of the calendar. */
  function UtcSecond(s: string): Option<int> {
    if !Stamped(s) then None
    else
      var year, month, day := 100 * Number(s, 0) + Number(s, 2), Number(s, 5), Number(s, 8);
      var hour, minute, second := Number(s, 11), Number(s, 14), Number(s, 17);
      if year < 1 || month < 1 || month > 12 || day < 1 || day > DaysIn(year, month)
         || hour > 23 || minute > 59 || second > 59 then None
      else Some(((Day(year, month, day) * 24 + hour) * 60 + minute) * 60 + second)
  }

  /** The measured start and end of the call that wrote a package, in microseconds. */
  type Window = Option<(int, int)>

  /** _in_window: the start rounded down to a second, the end rounded up. */
  predicate InWindow(moment: int, window: Window) {
    window.Some? && window.value.0 / 1000000 <= moment <= (window.value.1 + 999999) / 1000000
  }

  // ------------------------------------------------------------ the calendar behind the count

  datatype Date = Date(year: nat, month: nat, day: nat)

  /** A date of the Gregorian calendar. */
  predicate OnCalendar(d: Date) {
    && 1 <= d.year <= 9999 && 1 <= d.month <= 12 && 1 <= d.day
    && (if d.month in {4, 6, 9, 11} then d.day <= 30
        else if d.month != 2 then d.day <= 31
        else if d.year % 400 == 0 || (d.year % 4 == 0 && d.year % 100 != 0) then d.day <= 29
        else d.day <= 28)
  }

  /** The day after. */
  function Next(d: Date): Date {
    if OnCalendar(d.(day := d.day + 1)) then d.(day := d.day + 1)
    else if d.month < 12 then Date(d.year, d.month + 1, 1)
    else Date(d.year + 1, 1, 1)
  }

  lemma DaysExactly(d: Date)
    ensures OnCalendar(d) <==>
              1 <= d.year <= 9999 && 1 <= d.month <= 12 && 1 <= d.day <= DaysIn(d.year, d.month)
  {
  }

  lemma YearDays(year: nat)
    requires 1 <= year
    ensures DaysBefore(year, 12) + 31 == if Leap(year) then 366 else 365
  {
    assert DaysBefore(year, 1) == 0;
    assert DaysBefore(year, 3) == DaysBefore(year, 2) + DaysIn(year, 2);
    assert DaysBefore(year, 5) == DaysBefore(year, 4) + 30;
    assert DaysBefore(year, 7) == DaysBefore(year, 6) + 30;
    assert DaysBefore(year, 9) == DaysBefore(year, 8) + 31;
    assert DaysBefore(year, 11) == DaysBefore(year, 10) + 31;
    assert DaysBefore(year, 12) == DaysBefore(year, 11) + 30;
  }

  lemma LeapDays(year: nat)
    requires 1 <= year
    ensures year / 4 - year / 100 + year / 400
         == (year - 1) / 4 - (year - 1) / 100 + (year - 1) / 400 + if Leap(year) then 1 else 0
  {
    Quotient(year, 4);
    Quotient(year, 100);
    Quotient(year, 400);
    Multiples(year);
  }

  lemma Quotient(n: nat, d: nat)
    requires 1 <= n && 1 <= d
    ensures n / d == (n - 1) / d + if n % d == 0 then 1 else 0
  {
    var q, r := (n - 1) / d, (n - 1) % d;
    assert n - 1 == q * d + r;
    if r == d - 1 {
      assert n == (q + 1) * d;
      Divides(n, d, q + 1, 0);
    } else {
      Divides(n, d, q, r + 1);
    }
  }

  lemma Divides(n: nat, d: nat, q: nat, r: nat)
    requires r < d && n == q * d + r
    ensures n / d == q && n % d == r
  {
    var k := n / d - q;
    assert n == (n / d) * d + n % d;
    assert k * d == r - n % d;
    OneMore(k, d);
  }

  lemma OneMore(k: int, d: nat)
    ensures k >= 1 ==> k * d >= d
    ensures k <= -1 ==> k * d + d <= 0
  {
  }

  lemma Multiples(year: nat)
    ensures year % 400 == 0 ==> year % 100 == 0
    ensures year % 100 == 0 ==> year % 4 == 0
  {
    if year % 400 == 0 { Divides(year, 100, 4 * (year / 400), 0); }
    if year % 100 == 0 { Divides(year, 4, 25 * (year / 100), 0); }
  }

  /** Days are counted from the first of January of year 1, and every day of the calendar is one more than the day
      before: so the count is the number of days between. */
  lemma DayCounts(d: Date)
    requires OnCalendar(d)
    ensures Day(1, 1, 1) == 0
    ensures Day(Next(d).year, Next(d).month, Next(d).day) == Day(d.year, d.month, d.day) + 1
  {
    DaysExactly(d);
    DaysExactly(d.(day := d.day + 1));
    if d.month == 12 {
      YearTurns(d.year);
    } else {
      assert DaysBefore(d.year, d.month + 1) == DaysBefore(d.year, d.month) + DaysIn(d.year, d.month);
    }
    assert Day(1, 1, 1) == 0;
    hide OnCalendar, DaysBefore;
  }

  /** The first day of a year follows the last one of the year before. */
  lemma YearTurns(year: nat)
    requires 1 <= year
    ensures Day(year + 1, 1, 1) == Day(year, 12, 31) + 1 && DaysIn(year, 12) == 31
  {
    YearDays(year);
    LeapDays(year);
    hide Leap;
    assert DaysBefore(year + 1, 1) == 0;
  }

  // ------------------------------------------------------------ the printed form

  function Two(n: nat): string
    requires n < 100
  {
    [DigitChar(n / 10), DigitChar(n % 10)]
  }

  /** The timestamp as the package prints it. */
  function Printed(d: Date, hour: nat, minute: nat, second: nat): string
    requires OnCalendar(d) && hour < 24 && minute < 60 && second < 60
  {
    Two(d.year / 100) + Two(d.year % 100) + "-" + Two(d.month) + "-" + Two(d.day) + "T"
    + Two(hour) + ":" + Two(minute) + ":" + Two(second) + "Z"
  }

  /** The seconds from the first of January of year 1. */
  function Seconds(d: Date, hour: nat, minute: nat, second: nat): int
    requires OnCalendar(d)
  {
    Day(d.year, d.month, d.day) * 86400 + hour * 3600 + minute * 60 + second
  }

  lemma TwoReads(n: nat)
    requires n < 100
    ensures TwoDigits(Two(n), 0) && Number(Two(n), 0) == n
  {
  }

  lemma NumberTwo(s: string, i: nat)
    requires i + 2 <= |s| && TwoDigits(s, i)
    ensures Number(s, i) < 100 && s[i..i + 2] == Two(Number(s, i))
  {
    var m, n := DigitOf(s[i]), DigitOf(s[i + 1]);
    assert s[i] == DigitChar(m) && s[i + 1] == DigitChar(n);
    assert Number(s, i) / 10 == m && Number(s, i) % 10 == n;
    assert s[i..i + 2] == [s[i], s[i + 1]];
  }

  lemma PrintedParts(d: Date, hour: nat, minute: nat, second: nat)
    requires OnCalendar(d) && hour < 24 && minute < 60 && second < 60
    ensures var s := Printed(d, hour, minute, second);
            && |s| == 20 && s[0..2] == Two(d.year / 100) && s[2..4] == Two(d.year % 100) && s[5..7] == Two(d.month)
            && s[8..10] == Two(d.day) && s[11..13] == Two(hour) && s[14..16] == Two(minute) && s[17..19] == Two(second)
            && s[4] == '-' && s[7] == '-' && s[10] == 'T' && s[13] == ':' && s[16] == ':' && s[19] == 'Z'
  {
    hide DigitChar;
    var s := Printed(d, hour, minute, second);
    var a, b, c, e := Two(d.year / 100), Two(d.year % 100), Two(d.month), Two(d.day);
    var f, g, h := Two(hour), Two(minute), Two(second);
    hide Two;
    assert s == [a[0], a[1], b[0], b[1], '-', c[0], c[1], '-', e[0], e[1], 'T', f[0], f[1], ':', g[0], g[1], ':', h[0],
                 h[1], 'Z'];
    assert a == [a[0], a[1]] && b == [b[0], b[1]] && c == [c[0], c[1]] && e == [e[0], e[1]];
    assert f == [f[0], f[1]] && g == [g[0], g[1]] && h == [h[0], h[1]];
  }

  lemma NumberAt(s: string, i: nat, n: nat)
    requires i + 2 <= |s| && n < 100 && s[i..i + 2] == Two(n)
    ensures TwoDigits(s, i) && Number(s, i) == n
  {
    assert s[i] == s[i..i + 2][0] && s[i + 1] == s[i..i + 2][1];
    TwoReads(n);
  }

  /** A printed moment is read back as its count of seconds. */
  lemma PrintedReads(d: Date, hour: nat, minute: nat, second: nat)
    requires OnCalendar(d) && hour < 24 && minute < 60 && second < 60
    ensures UtcSecond(Printed(d, hour, minute, second)) == Some(Seconds(d, hour, minute, second))
  {
    hide Two, Printed, TwoDigits, Number, Day;
    var s := Printed(d, hour, minute, second);
    PrintedParts(d, hour, minute, second);
    NumberAt(s, 0, d.year / 100);
    NumberAt(s, 2, d.year % 100);
    NumberAt(s, 5, d.month);
    NumberAt(s, 8, d.day);
    NumberAt(s, 11, hour);
    NumberAt(s, 14, minute);
    NumberAt(s, 17, second);
    DaysExactly(d);
  }

  /** And nothing else is read. */
  lemma OnlyPrintedReads(s: string)
    requires UtcSecond(s).Some?
    ensures exists d, hour, minute, second ::
              && OnCalendar(d) && hour < 24 && minute < 60 && second < 60 && s == Printed(d, hour, minute, second)
  {
    hide Two, Printed, TwoDigits, Number, Day;
    var d := Date(100 * Number(s, 0) + Number(s, 2), Number(s, 5), Number(s, 8));
    var hour, minute, second := Number(s, 11), Number(s, 14), Number(s, 17);
    NumberTwo(s, 0);
    NumberTwo(s, 2);
    NumberTwo(s, 5);
    NumberTwo(s, 8);
    NumberTwo(s, 11);
    NumberTwo(s, 14);
    NumberTwo(s, 17);
    DaysExactly(d);
    PrintedParts(d, hour, minute, second);
    SameParts(s, Printed(d, hour, minute, second));
  }

  lemma SameParts(s: string, t: string)
    requires |s| == |t| == 20
    requires s[0..2] == t[0..2] && s[2..4] == t[2..4] && s[5..7] == t[5..7] && s[8..10] == t[8..10]
    requires s[11..13] == t[11..13] && s[14..16] == t[14..16] && s[17..19] == t[17..19]
    requires s[4] == t[4] && s[7] == t[7] && s[10] == t[10] && s[13] == t[13] && s[16] == t[16] && s[19] == t[19]
    ensures s == t
  {
    assert s == s[0..2] + s[2..4] + [s[4]] + s[5..7] + [s[7]] + s[8..10] + [s[10]] + s[11..13] + [s[13]] + s[14..16]
             + [s[16]] + s[17..19] + [s[19]];
    assert t == t[0..2] + t[2..4] + [t[4]] + t[5..7] + [t[7]] + t[8..10] + [t[10]] + t[11..13] + [t[13]] + t[14..16]
             + [t[16]] + t[17..19] + [t[19]];
  }
}
