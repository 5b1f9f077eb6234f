/**
 * The date arithmetic of src/ext-calendar.c: month lengths with the
 * Gregorian leap-year rule, month names, the Monday-first column of the
 * first day of a month, the quarter a month belongs to, the months either
 * side of a month, and the six-week grid the printers fill for each month.
 *
 * `mktime` is a library call: its weekday (or its failure) is a parameter.
 */
module Calendar {
  import opened Common

  const MonthNames: seq<string> := ["January", "February", "March", "April", "May", "June",
    "July", "August", "September", "October", "November", "December"]

  /** The `days` column of the `months` table: February has 28 there. */
  const MonthLengths: seq<int> := [31, 28, 31, 30, 31, 30, 31, 31, 30, 31, 30, 31]

  /**
   * Divisible by 4 but not by 100, or divisible by 400. C's `%` truncates,
   * but a remainder is zero for exactly the same operands either way, so
   * the test agrees with the source for negative years too.
   */
  predicate IsLeap(year: int)
  {
    (year % 4 == 0 && year % 100 != 0) || year % 400 == 0
  }

  /** `daysInMonth`: -1 for a month outside 1..12. */
  function DaysInMonth(year: int, month: int): (r: int)
    ensures r == -1 <==> month < 1 || month > 12
    ensures 1 <= month <= 12 ==> 28 <= r <= 31
  {
    if month < 1 || month > 12 then -1
    else if month == 2 && IsLeap(year) then 29
    else MonthLengths[month - 1]
  }

  /**
   * A month number outside 1..12 gives -1; otherwise 28 to 31 days, 29
   * exactly for February of a leap year, 30 for April, June, September and
   * November, 31 for the other seven.
   */
  lemma DaysInMonthCases(year: int, month: int)
    ensures var d := DaysInMonth(year, month);
      (d == -1 <==> month < 1 || month > 12) &&
      (1 <= month <= 12 ==> 28 <= d <= 31) &&
      (d == 29 <==> month == 2 && IsLeap(year)) &&
      (d == 28 <==> month == 2 && !IsLeap(year)) &&
      (d == 30 <==> month == 4 || month == 6 || month == 9 || month == 11)
  {
  }

  /** The days of months 1 to `m`. */
  function DaysBefore(year: int, m: nat): int
    requires m <= 12
  {
    if m == 0 then 0 else DaysBefore(year, m - 1) + DaysInMonth(year, m)
  }

  /** The twelve months add up to 366 days in a leap year and 365 otherwise. */
  lemma YearLength(year: int)
    ensures DaysBefore(year, 12) == if IsLeap(year) then 366 else 365
  {
    var feb := DaysInMonth(year, 2);
    assert DaysBefore(year, 1) == 31;
    assert DaysBefore(year, 2) == 31 + feb;
    assert DaysBefore(year, 3) == 62 + feb;
    assert DaysBefore(year, 4) == 92 + feb;
    assert DaysBefore(year, 5) == 123 + feb;
    assert DaysBefore(year, 6) == 153 + feb;
    assert DaysBefore(year, 7) == 184 + feb;
    assert DaysBefore(year, 8) == 215 + feb;
    assert DaysBefore(year, 9) == 245 + feb;
    assert DaysBefore(year, 10) == 276 + feb;
    assert DaysBefore(year, 11) == 306 + feb;
  }

  /** `getMonthName`. */
  function MonthName(month: int): (r: string)
    ensures r == "Invalid" <==> month < 1 || month > 12
  {
    if month < 1 || month > 12 then "Invalid" else MonthNames[month - 1]
  }

  /** "Invalid" exactly outside 1..12, and the twelve names are distinct. */
  lemma MonthNameCases(a: int, b: int)
    ensures MonthName(a) == "Invalid" <==> a < 1 || a > 12
    ensures 1 <= a <= 12 && 1 <= b <= 12 ==> (MonthName(a) == MonthName(b) <==> a == b)
  {
    if 1 <= a <= 12 && 1 <= b <= 12 && a != b {
      assert |MonthName(a)| != |MonthName(b)| || MonthName(a)[0] != MonthName(b)[0] || MonthName(a)[2] != MonthName(b)[2];
    }
  }

  /**
   * `getFirstDayOfMonth`: the column of day 1 in a Monday-first week, from
   * the `tm_wday` (0 Sunday .. 6 Saturday) `mktime` filled in; column 1 when
   * `mktime` failed.
   */
  function FirstDayColumn(wday: Option<int>): int
    requires wday.Some? ==> 0 <= wday.value <= 6
  {
    if wday.None? then 1
    else if wday.value == 0 then 7 else wday.value
  }

  /** The column is 1..7, Monday first: Sunday's 0 moves to 7, the others keep their number. */
  lemma FirstDayColumnMondayFirst(wday: Option<int>)
    requires wday.Some? ==> 0 <= wday.value <= 6
    ensures 1 <= FirstDayColumn(wday) <= 7
    ensures wday.Some? ==> FirstDayColumn(wday) == (wday.value + 6) % 7 + 1
    ensures wday.None? ==> FirstDayColumn(wday) == 1
  {
  }

  /** C's `/` on `int`: the quotient truncated toward zero. */
  function CDiv(a: int, b: int): int
    requires b > 0
  {
    if a >= 0 then a / b else -((-a) / b)
  }

  /**
   * `((month - 1) / 3) * 3 + 1`, the first month of the quarter, in cc65's
   * 16-bit `int`: `month - 1` wraps at -32768.
   */
  function QuarterStart(month: int): int
  {
    Signed16(CDiv(Signed16(month - 1), 3) * 3 + 1)
  }

  /** For a real month: January, April, July or October, and the quarter holds the month. */
  lemma QuarterStartContains(month: int)
    requires 1 <= month <= 12
    ensures var q := QuarterStart(month);
      (q == 1 || q == 4 || q == 7 || q == 10) && q <= month < q + 3
  {
    assert Signed16(month - 1) == month - 1;
    var k := CDiv(month - 1, 3);
    assert k == (month - 1) / 3 && 0 <= k <= 3;
    assert Signed16(k * 3 + 1) == k * 3 + 1;
  }

  /** Month 0 (what a missing argument parses to) truncates to the first quarter, not a negative month. */
  lemma QuarterStartOfZero()
    ensures QuarterStart(0) == 1
  {
  }

  /** A year and a month. */
  datatype YearMonth = YearMonth(year: int, month: int)

  /**
   * The months before and after, as `print_calendar_neighbours` computes
   * them: `month - 1`, `month + 1`, `year - 1` and `year + 1` are 16-bit
   * `int`s and wrap.
   */
  function Neighbours(year: int, month: int): seq<YearMonth>
  {
    [if Signed16(month - 1) < 1 then YearMonth(Signed16(year - 1), 12) else YearMonth(year, Signed16(month - 1)),
     YearMonth(year, month),
     if Signed16(month + 1) > 12 then YearMonth(Signed16(year + 1), 1) else YearMonth(year, Signed16(month + 1))]
  }

  /** Months numbered consecutively across years. */
  function MonthIndex(ym: YearMonth): int
  {
    12 * ym.year + ym.month - 1
  }

  /**
   * For a real month the three are real months and consecutive: the wrap
   * at 12 and 1 moves the year. Only up to whole 16-bit turns of the year,
   * though: consecutive outright when the year is not at either end of the
   * 16-bit range.
   */
  lemma NeighboursConsecutive(year: int, month: int)
    requires 1 <= month <= 12
    ensures var n := Neighbours(year, month);
      |n| == 3 && (forall i :: 0 <= i < 3 ==> 1 <= n[i].month <= 12) && n[1] == YearMonth(year, month) &&
      (MonthIndex(n[0]) + 1 - MonthIndex(n[1])) % (12 * 0x10000) == 0 &&
      (MonthIndex(n[1]) + 1 - MonthIndex(n[2])) % (12 * 0x10000) == 0
    ensures -0x8000 < year < 0x7FFF ==> var n := Neighbours(year, month);
      MonthIndex(n[0]) + 1 == MonthIndex(n[1]) && MonthIndex(n[1]) + 1 == MonthIndex(n[2])
  {
    var n := Neighbours(year, month);
    assert (Signed16(year - 1) - (year - 1)) % 0x10000 == 0;
    assert (Signed16(year + 1) - (year + 1)) % 0x10000 == 0;
  }

  /**
   * At the ends of the 16-bit range the program's months are not
   * consecutive: `/n 32767 12` follows December 32767 with January -32768,
   * and `/n 2024 32767` follows month 32767 with month -32768 of 2024.
   */
  lemma NeighboursWrap()
    ensures Neighbours(32767, 12)[2] == YearMonth(-32768, 1)
    ensures Neighbours(2024, 32767)[2] == YearMonth(2024, -32768)
  {
  }

  /** `/q 2024 -32768`: `month - 1` wraps to 32767, and the quarter starts at month 32767. */
  lemma QuarterStartWraps()
    ensures QuarterStart(-32768) == 32767
  {
  }

  /**
   * The day shown in cell `i` of a month's six-week grid (row `i / 7`,
   * column `i % 7 + 1`), 0 for a blank cell.
   */
  function Cell(start: int, days: int, i: int): int
  {
    if start - 1 <= i && i - start + 2 <= days then i - start + 2 else 0
  }

  /** How many days the first `k` cells show. */
  function Shown(start: int, days: int, k: int): int
  {
    if k < start - 1 then 0
    else if k - start + 1 <= days then k - start + 1
    else if days < 0 then 0 else days
  }

  /**
   * One month's part of the grid loops of `print_calendar_quarter`,
   * `print_calendar_neighbours` and `print_calendar_year`: blanks before the
   * first day in week 0, then `current_day` counting up while it is within
   * the month, then blanks.
   */
  method MonthCells(start: int, days: int) returns (cells: seq<int>)
    requires 1 <= start <= 7
    ensures |cells| == 42 && forall i :: 0 <= i < 42 ==> cells[i] == Cell(start, days, i)
  {
    cells := [];
    var current := 1;
    var week := 0;
    while week < 6
      invariant 0 <= week <= 6 && |cells| == 7 * week
      invariant forall i :: 0 <= i < |cells| ==> cells[i] == Cell(start, days, i)
      invariant current == 1 + Shown(start, days, |cells|)
    {
      var wday := 1;
      while wday <= 7
        invariant 1 <= wday <= 8 && |cells| == 7 * week + wday - 1
        invariant forall i :: 0 <= i < |cells| ==> cells[i] == Cell(start, days, i)
        invariant current == 1 + Shown(start, days, |cells|)
      {
        if week == 0 && wday < start {
          cells := cells + [0];
        } else if current <= days {
          cells := cells + [current];
          current := current + 1;
        } else {
          cells := cells + [0];
        }
        wday := wday + 1;
      }
      week := week + 1;
    }
  }

  /**
   * For a real month every day 1..days appears exactly once, in the column
   * of its weekday counted from the first day's column: six weeks always
   * suffice.
   */
  lemma AllDaysShown(start: int, year: int, month: int, d: int)
    requires 1 <= start <= 7 && 1 <= month <= 12 && 1 <= d <= DaysInMonth(year, month)
    ensures var i := start - 2 + d;
      0 <= i < 42 && Cell(start, DaysInMonth(year, month), i) == d &&
      i % 7 + 1 == (start - 1 + d - 1) % 7 + 1 &&
      forall j :: 0 <= j < 42 && Cell(start, DaysInMonth(year, month), j) == d ==> j == i
  {
    DaysInMonthCases(year, month);
  }

  /**
   * `print_calendar` ends a row after day `d` when `(start_day + 7) % 7 == 0`,
   * `start_day` being the first day's column plus `d - 1`.
   */
  predicate RowEndsAfter(start: int, d: int)
  {
    (start + d - 1 + 7) % 7 == 0
  }

  /** The single-month printer ends its rows exactly after the days the grid puts in column 7 (Sunday). */
  lemma RowEndsOnSunday(start: int, d: int)
    requires 1 <= start <= 7 && 1 <= d
    ensures RowEndsAfter(start, d) <==> (start - 2 + d) % 7 + 1 == 7
  {
  }

  /** The characters `isspace` accepts: space, tab, newline, vertical tab, form feed, carriage return. */
  predicate IsSpace(c: char)
  {
    c == ' ' || c == '\t' || c == '\n' || c == '\U{B}' || c == '\U{C}' || c == '\r'
  }

  /**
   * cc65's `atoi`: leading white space, an optional sign, then decimal
   * digits up to the first non-digit. The digits accumulate in a 32-bit
   * `long` and the `int` returned is its low 16 bits; since 2^16 divides
   * 2^32, that is the low 16 bits of the exact value, read as signed.
   */
  function Atoi(s: string): (r: int)
    ensures -0x8000 <= r < 0x8000
  {
    if |s| > 0 && IsSpace(s[0]) then Atoi(s[1..])
    else if |s| > 0 && s[0] == '-' then Signed16(0 - Digits(s[1..], 0))
    else if |s| > 0 && s[0] == '+' then Signed16(Digits(s[1..], 0))
    else Signed16(Digits(s, 0))
  }

  /** The decimal digits at the head of `s`, accumulated onto `acc`. */
  function Digits(s: string, acc: nat): nat
  {
    if |s| > 0 && '0' <= s[0] <= '9' then Digits(s[1..], acc * 10 + (s[0] as int - '0' as int)) else acc
  }

  /** What `main` prints. */
  datatype View =
    | ClockNotSet
    | Usage
    | ArgumentList
    | MonthView(year: int, month: int, today: int)
    | YearView(year: int, todayMonth: int, todayDay: int)
    | QuarterView(year: int, startMonth: int, todayMonth: int, todayDay: int)
    | NeighbourView(year: int, month: int, todayDay: int)

  /** Argument `i` as a number; an absent one counts as 0 (the source reads `argv[2]` even when only a year was given). */
  function Arg(args: seq<string>, i: nat): int
  {
    if i < |args| then Atoi(args[i]) else 0
  }

  /**
   * `main`: the clock reading is the parameter `now` (year, month, day).
   * A clock still in 1970 is reported as not set; then the first argument
   * picks the view, and the year and month arguments, when there are any,
   * replace the current date (the highlighted day is then 0, none).
   */
  function Choose(args: seq<string>, year: int, month: int, day: int): (r: View)
    ensures year == 1970 ==> r == ClockNotSet
    ensures year != 1970 && |args| > 1 && args[0] in ["/y", "/q", "/n", "/p"] ==>
      !r.ClockNotSet? && !r.Usage? && !r.ArgumentList? && r.year == Arg(args, 1) && -0x8000 <= r.year < 0x8000
  {
    if year == 1970 then ClockNotSet
    else if |args| > 0 && args[0] == "/?" then Usage
    else if |args| > 0 && args[0] == "/debug" then ArgumentList
    else if |args| > 0 && args[0] == "/y" then
      (if |args| > 1 then YearView(Arg(args, 1), 0, 0) else YearView(year, month, day))
    else if |args| > 0 && args[0] == "/q" then
      (if |args| > 1 then QuarterView(Arg(args, 1), QuarterStart(Arg(args, 2)), Arg(args, 2), 0)
       else QuarterView(year, QuarterStart(month), month, day))
    else if |args| > 0 && args[0] == "/n" then
      (if |args| > 1 then NeighbourView(Arg(args, 1), Arg(args, 2), 0) else NeighbourView(year, month, day))
    else if |args| > 0 && args[0] == "/p" then MonthView(Arg(args, 1), Arg(args, 2), 0)
    else MonthView(year, month, day)
  }

  /**
   * Without arguments the current month is shown with today highlighted;
   * `/q` on the current date shows a quarter holding today; any unknown
   * switch falls back to the current month; an unset clock wins over
   * everything.
   */
  lemma ChooseCases(args: seq<string>, year: int, month: int, day: int)
    requires 1 <= month <= 12
    ensures year == 1970 ==> Choose(args, year, month, day) == ClockNotSet
    ensures year != 1970 && args == [] ==> Choose(args, year, month, day) == MonthView(year, month, day)
    ensures year != 1970 && args == ["/q"] ==>
      var v := Choose(args, year, month, day);
      v.QuarterView? && v.startMonth <= v.todayMonth < v.startMonth + 3 && v.todayDay == day
    ensures year != 1970 && |args| > 0 && args[0] !in ["/?", "/debug", "/y", "/q", "/n", "/p"] ==>
      Choose(args, year, month, day) == MonthView(year, month, day)
  {
    if year != 1970 && args == ["/q"] {
      QuarterStartContains(month);
    }
  }

  /** `/p 2024 2` names February 2024 with nothing highlighted. */
  lemma ParticularMonth()
    ensures Choose(["/p", "2024", "2"], 2025, 6, 15) == MonthView(2024, 2, 0)
  {
    assert Atoi("2024") == 2024 by {
      assert "2024"[1..] == "024" && "024"[1..] == "24" && "24"[1..] == "4" && "4"[1..] == "";
      assert Digits("2024", 0) == Digits("024", 2) == Digits("24", 20) == Digits("4", 202) == Digits("", 2024);
    }
    assert Atoi("2") == 2 by { assert "2"[1..] == ""; }
  }

  /** A year argument past the 16-bit range wraps: `/y 65636` shows the year 100, whose February has 28 days. */
  lemma YearArgumentWraps()
    ensures Atoi("65636") == 100
    ensures Choose(["/y", "65636"], 2025, 6, 15) == YearView(100, 0, 0)
    ensures DaysInMonth(Atoi("65636"), 2) == 28
  {
    assert Digits("65636", 0) == 65636 by {
      assert "65636"[1..] == "5636" && "5636"[1..] == "636" && "636"[1..] == "36" && "36"[1..] == "6" && "6"[1..] == "";
      assert Digits("65636", 0) == Digits("5636", 6) == Digits("636", 65) == Digits("36", 656) == Digits("6", 6563) == Digits("", 65636);
    }
  }
}
