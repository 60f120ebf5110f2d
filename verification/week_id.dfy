/** `getWeekId`: the "year-Wnn" key under which completions are grouped.

    The source reads the local date from the clock; the model takes the
    calendar year, the milliseconds elapsed since local midnight of 1 January
    of that year, and the weekday of 1 January (0 = Sunday, as `Date.getDay`)
    as parameters. */
module WeekId {
  import opened Wrappers

  const DayMs: nat := 86400000
  const WeekMs: nat := 7 * DayMs

  /** The week number `getWeekId` computes, rounding up
      (elapsedMs / DayMs + jan1Weekday + 1) / 7 in exact arithmetic. */
  function WeekNumber(elapsedMs: nat, jan1Weekday: nat): (w: nat)
    requires jan1Weekday < 7
    requires elapsedMs < 366 * DayMs
    ensures 1 <= w <= 54
    // w is the ceiling: the smallest whole number of weeks covering the offset
    ensures (w - 1) * WeekMs < elapsedMs + (jan1Weekday + 1) * DayMs <= w * WeekMs
  {
    (elapsedMs + (jan1Weekday + 1) * DayMs + WeekMs - 1) / WeekMs
  }

  /** Within one year, a later instant never gets an earlier week. */
  lemma WeekNumberMonotonic(e1: nat, e2: nat, jan1Weekday: nat)
    requires jan1Weekday < 7
    requires e1 <= e2 < 366 * DayMs
    ensures WeekNumber(e1, jan1Weekday) <= WeekNumber(e2, jan1Weekday)
  {
    var w1, w2 := WeekNumber(e1, jan1Weekday), WeekNumber(e2, jan1Weekday);
    assert (w1 - 1) * WeekMs < w2 * WeekMs;
  }

  /** The week of day `day` of the year (0 for 1 January) with weeks starting
      on Sunday: the week number the formula gives for whole days. */
  function WeekOfDay(day: nat, jan1Weekday: nat): (w: nat)
    requires jan1Weekday < 7
    requires day < 366
    ensures 1 <= w <= 54
    ensures (w - 1) * 7 <= day + jan1Weekday < w * 7
  {
    (day + jan1Weekday) / 7 + 1
  }

  /** With whole days the week number changes exactly on Sundays. */
  lemma WeekOfDayStartsOnSunday(day: nat, jan1Weekday: nat)
    requires jan1Weekday < 7
    requires 1 <= day < 366
    ensures WeekOfDay(day, jan1Weekday) == WeekOfDay(day - 1, jan1Weekday) + (if (day + jan1Weekday) % 7 == 0 then 1 else 0)
  {
  }

  /** At midnight the source agrees with the whole-day week. */
  lemma WeekNumberAtMidnight(day: nat, jan1Weekday: nat)
    requires jan1Weekday < 7
    requires day < 366
    ensures WeekNumber(day * DayMs, jan1Weekday) == WeekOfDay(day, jan1Weekday)
  {
    var w := WeekNumber(day * DayMs, jan1Weekday);
    var v := WeekOfDay(day, jan1Weekday);
    assert (w - 1) * 7 * DayMs < (day + jan1Weekday + 1) * DayMs <= w * 7 * DayMs;
    assert (w - 1) * 7 < day + jan1Weekday + 1 <= w * 7;
  }

  /** Any later instant of the day gets the whole-day week of the following
      day: on a Saturday, the next week. */
  lemma WeekNumberAfterMidnight(day: nat, ms: nat, jan1Weekday: nat)
    requires jan1Weekday < 7
    requires day < 365
    requires 0 < ms < DayMs
    ensures WeekNumber(day * DayMs + ms, jan1Weekday) == WeekOfDay(day + 1, jan1Weekday)
  {
    var w := WeekNumber(day * DayMs + ms, jan1Weekday);
    var n := day + jan1Weekday + 1;
    assert (w - 1) * WeekMs < n * DayMs + ms <= w * WeekMs;
    assert ((w - 1) * 7) * DayMs < (n + 1) * DayMs;
    assert n * DayMs < (w * 7) * DayMs;
  }

  /** 2025 starts on a Wednesday (weekday 3), so day 3 of the year,
      4 January, is a Saturday (weekday 6). At noon on Saturday 4 January the source
      already reports week 2, while Friday noon is in week 1 and the
      whole-day week of that Saturday is week 1. */
  lemma SaturdayNoonCountsAsNextWeek()
    ensures WeekNumber(2 * DayMs + DayMs / 2, 3) == 1
    ensures WeekNumber(3 * DayMs + DayMs / 2, 3) == 2
    ensures WeekOfDay(3, 3) == 1
  {
  }

  /** The digit characters '0' to '9'. */
  predicate IsDigits(s: string)
  {
    forall i :: 0 <= i < |s| ==> '0' <= s[i] <= '9'
  }

  function DigitChar(d: nat): (c: char)
    requires d < 10
    ensures '0' <= c <= '9'
  {
    ('0' as int + d) as char
  }

  /** `n.toString()` for a non-negative integer. */
  function NatToString(n: nat): (s: string)
    ensures |s| >= 1 && IsDigits(s)
    ensures n < 10 <==> |s| == 1
    ensures 10 <= n < 100 ==> |s| == 2
  {
    if n < 10 then [DigitChar(n)] else NatToString(n / 10) + [DigitChar(n % 10)]
  }

  /** `n.toString()` for any integer: a minus sign before the digits of a negative number. */
  function IntToString(n: int): (s: string)
    ensures |s| >= 1
    ensures n >= 0 ==> IsDigits(s)
    ensures n < 0 ==> s[0] == '-' && IsDigits(s[1..])
  {
    if n < 0 then "-" + NatToString(-n) else NatToString(n)
  }

  /** `s.padStart(2, '0')`. */
  function PadStart2(s: string): (r: string)
    ensures |r| == if |s| >= 2 then |s| else 2
    ensures r[|r| - |s|..] == s
    ensures forall i :: 0 <= i < |r| - |s| ==> r[i] == '0'
  {
    if |s| >= 2 then s else seq(2 - |s|, _ => '0') + s
  }

  /** The key `${year}-W${week padded to two digits}`. */
  function WeekKey(year: int, week: nat): (k: string)
    ensures week < 100 ==> |k| == |IntToString(year)| + 4 && k[..|k| - 4] == IntToString(year)
    ensures week < 100 ==> k[|k| - 4..|k| - 2] == "-W" && IsDigits(k[|k| - 2..])
  {
    var y := IntToString(year);
    if week < 100 then PaddedKey(y, week); y + "-W" + PadStart2(NatToString(week))
    else y + "-W" + PadStart2(NatToString(week))
  }

  /** The parts of a key with a week below 100 sit at fixed places from its end. */
  lemma PaddedKey(y: string, week: nat)
    requires week < 100
    ensures var s := y + "-W" + PadStart2(NatToString(week));
      && |s| == |y| + 4 && s[..|s| - 4] == y
      && s[|s| - 4..|s| - 2] == "-W" && IsDigits(s[|s| - 2..])
  {
    PaddedWeekRoundTrip(week);
    KeyParts(y, PadStart2(NatToString(week)));
  }

  /** `getWeekId` for the given point in time. */
  function GetWeekId(year: int, elapsedMs: nat, jan1Weekday: nat): (id: string)
    requires jan1Weekday < 7
    requires elapsedMs < 366 * DayMs
    ensures |id| >= 5 && id[|id| - 4..|id| - 2] == "-W" && IsDigits(id[|id| - 2..])
    ensures ParseWeekKey(id) == Some((year, WeekNumber(elapsedMs, jan1Weekday)))
  {
    var w := WeekNumber(elapsedMs, jan1Weekday);
    WeekKeyRoundTrip(year, w);
    WeekKey(year, w)
  }

  /** The week key with weeks that start on Sunday: the key of the whole day
      `day` of the year (0 for 1 January), whatever the time of day. */
  function CorrectedWeekId(year: int, day: nat, jan1Weekday: nat): (id: string)
    requires jan1Weekday < 7
    requires day < 366
    ensures ParseWeekKey(id) == Some((year, WeekOfDay(day, jan1Weekday)))
  {
    var w := WeekOfDay(day, jan1Weekday);
    WeekKeyRoundTrip(year, w);
    WeekKey(year, w)
  }

  /** At midnight the source's key and the corrected key coincide. */
  lemma CorrectedWeekIdAtMidnight(year: int, day: nat, jan1Weekday: nat)
    requires jan1Weekday < 7
    requires day < 366
    ensures GetWeekId(year, day * DayMs, jan1Weekday) == CorrectedWeekId(year, day, jan1Weekday)
  {
    WeekNumberAtMidnight(day, jan1Weekday);
  }

  /** The value of a string of decimal digits. */
  function ParseNat(s: string): nat
    requires IsDigits(s)
  {
    if |s| == 0 then 0 else ParseNat(s[..|s| - 1]) * 10 + (s[|s| - 1] as int - '0' as int)
  }

  /** A decimal integer as `toString` writes it: digits, after an optional minus sign. */
  predicate IsIntString(s: string)
  {
    if |s| > 0 && s[0] == '-' then |s| > 1 && IsDigits(s[1..]) else |s| > 0 && IsDigits(s)
  }

  function ParseInt(s: string): int
    requires IsIntString(s)
  {
    if s[0] == '-' then -(ParseNat(s[1..]) as int) else ParseNat(s)
  }

  /** Reads a two-digit-week key back into its year and week. */
  function ParseWeekKey(s: string): Option<(int, nat)>
  {
    if |s| >= 5 && s[|s| - 4..|s| - 2] == "-W" && IsDigits(s[|s| - 2..]) && IsIntString(s[..|s| - 4])
    then Some((ParseInt(s[..|s| - 4]), ParseNat(s[|s| - 2..])))
    else None
  }

  lemma {:induction false} NatToStringRoundTrip(n: nat)
    ensures ParseNat(NatToString(n)) == n
    decreases n
  {
    if n >= 10 {
      NatToStringRoundTrip(n / 10);
      var s := NatToString(n);
      assert s[..|s| - 1] == NatToString(n / 10);
    }
  }

  lemma IntToStringRoundTrip(n: int)
    ensures IsIntString(IntToString(n)) && ParseInt(IntToString(n)) == n
  {
    var s := IntToString(n);
    if n < 0 {
      assert s[1..] == NatToString(-n);
      NatToStringRoundTrip(-n);
    } else {
      NatToStringRoundTrip(n);
    }
  }

  /** A week below 100 pads to two digits that read back as the week. */
  lemma PaddedWeekRoundTrip(week: nat)
    requires week < 100
    ensures var p := PadStart2(NatToString(week)); |p| == 2 && IsDigits(p) && ParseNat(p) == week
  {
    var p := PadStart2(NatToString(week));
    NatToStringRoundTrip(week);
    if week < 10 {
      assert p == ['0'] + NatToString(week);
      assert p[..1] == ['0'];
    }
  }

  /** A key with a week below 100 reads back as its year and week. */
  lemma WeekKeyRoundTrip(year: int, week: nat)
    requires week < 100
    ensures ParseWeekKey(WeekKey(year, week)) == Some((year, week))
  {
    var y := IntToString(year);
    var p := PadStart2(NatToString(week));
    PaddedWeekRoundTrip(week);
    IntToStringRoundTrip(year);
    KeyParts(y, p);
  }

  /** The three parts of `y + "-W" + p` sit where the parser looks for them. */
  lemma KeyParts(y: string, p: string)
    requires |p| == 2
    ensures var s := y + "-W" + p;
      |s| == |y| + 4 && s[..|s| - 4] == y && s[|s| - 4..|s| - 2] == "-W" && s[|s| - 2..] == p
  {
    var s := y + "-W" + p;
    assert s[..|y|] == y;
    assert s[|y|..|y| + 2] == "-W";
    assert s[|y| + 2..] == p;
  }

  /** Different weeks get different keys, so comparing keys compares weeks. */
  lemma WeekKeyInjective(y1: int, w1: nat, y2: int, w2: nat)
    requires w1 < 100 && w2 < 100
    requires WeekKey(y1, w1) == WeekKey(y2, w2)
    ensures y1 == y2 && w1 == w2
  {
    WeekKeyRoundTrip(y1, w1);
    WeekKeyRoundTrip(y2, w2);
  }
}
