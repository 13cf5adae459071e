/** The timestamp helpers of the backend handlers: `days_to_ymd`, Howard
    Hinnant's civil-from-days algorithm for the proleptic Gregorian calendar,
    and `now_iso8601`, which splits a count of seconds since the Unix epoch
    into a date and a time of day and prints them as `YYYY-MM-DDTHH:MM:SSZ`.
    The clock read is a parameter (`secs`). */
module DateTime {
  import opened Common

  datatype Date = Date(year: nat, month: nat, day: nat)

  predicate IsLeapYear(y: int) {
    y % 4 == 0 && (y % 100 != 0 || y % 400 == 0)
  }

  function DaysInMonth(y: int, m: int): nat
    requires 1 <= m <= 12
  {
    if m == 2 then (if IsLeapYear(y) then 29 else 28)
    else if m == 4 || m == 6 || m == 9 || m == 11 then 30
    else 31
  }

  /** Hinnant's days-from-civil: the number of days from 1970-01-01 to the
      given date. It is the inverse that `DaysToYmd` is proved against. */
  function DaysFromCivil(y: int, m: int, d: int): int
    requires 1 <= m <= 12
  {
    var y' := if m <= 2 then y - 1 else y;
    var era := y' / 400;
    var yoe := y' - era * 400;
    var mp := if m > 2 then m - 3 else m + 9;
    var doy := (153 * mp + 2) / 5 + d - 1;
    var doe := yoe * 365 + yoe / 4 - yoe / 100 + doy;
    era * 146097 + doe - 719468
  }

  // ---------------------------------------------------------------------
  // Arithmetic facts behind the algorithm
  // ---------------------------------------------------------------------

  lemma MulMonotone(d: int, a: int, b: int)
    requires d >= 0 && a <= b
    ensures d * a <= d * b
  {
    assert d * b - d * a == d * (b - a);
  }

  /** Division is determined by the bracketing multiples of the divisor. */
  lemma DivBy(x: int, d: int, q: int)
    requires d > 0 && d * q <= x < d * q + d
    ensures x / d == q
  {
    var p := x / d;
    assert d * p + x % d == x;
    if p > q {
      MulMonotone(d, q + 1, p);
    } else if p < q {
      MulMonotone(d, p + 1, q);
    }
  }

  /** Days of a 400-year era (starting on March 1) before its year `yoe`. */
  function DaysBeforeYear(yoe: int): int {
    365 * yoe + yoe / 4 - yoe / 100
  }

  /** The year-of-era formula of `days_to_ymd`. */
  function YearOfEra(doe: int): int {
    (doe - doe / 1460 + doe / 36524 - doe / 146096) / 365
  }

  /** March-based years of an era that end with a leap day (February 29 of
      the following civil year). */
  predicate EndsWithLeapDay(yoe: int) {
    (yoe + 1) % 4 == 0 && ((yoe + 1) % 100 != 0 || yoe + 1 == 400)
  }

  lemma YearOfEraInCentury(c: int, q: int, r: int)
    requires 0 <= c <= 3 && 0 <= q <= 24 && 0 <= r <= 1460
    requires 1461 * q + r < 36524
    ensures YearOfEra(36524 * c + 1461 * q + r) == 100 * c + 4 * q + (if r / 365 < 3 then r / 365 else 3)
  {
    var doe := 36524 * c + 1461 * q + r;
    var e := 24 * c + q + r;
    var extra := if e >= 1460 then 1 else 0;
    DivBy(doe, 1460, 25 * c + q + extra);
    DivBy(doe, 36524, c);
    DivBy(doe, 146096, 0);
    var k := if r / 365 < 3 then r / 365 else 3;
    var a := doe - (25 * c + q + extra) + c;
    assert a == 365 * (100 * c + 4 * q) + r - extra;
    DivBy(a, 365, 100 * c + 4 * q + k);
  }

  lemma DaysBeforeYearInCentury(c: int, q: int, k: int)
    requires 0 <= c <= 3 && 0 <= q <= 24 && 0 <= k <= 3
    ensures DaysBeforeYear(100 * c + 4 * q + k) == 36524 * c + 1461 * q + 365 * k
    ensures EndsWithLeapDay(100 * c + 4 * q + k) <==> k == 3 && (q < 24 || c == 3)
  {
    DivBy(100 * c + 4 * q + k, 4, 25 * c + q);
    DivBy(100 * c + 4 * q + k, 100, c);
  }

  /** The year-of-era formula lands in the year that contains day `doe` of
      the era, so the day of the year never underflows and is at most 365,
      and 365 only in a year that ends with a leap day. */
  lemma {:induction false} YearOfEraCorrect(doe: int)
    requires 0 <= doe < 146097
    ensures 0 <= YearOfEra(doe) < 400
    ensures DaysBeforeYear(YearOfEra(doe)) <= doe <= DaysBeforeYear(YearOfEra(doe)) + 365
    ensures doe == DaysBeforeYear(YearOfEra(doe)) + 365 ==> EndsWithLeapDay(YearOfEra(doe))
  {
    if doe == 146096 {
      DivBy(doe - doe / 1460 + doe / 36524 - doe / 146096, 365, 399);
      DaysBeforeYearInCentury(3, 24, 3);
    } else {
      var c := doe / 36524;
      var rest := doe % 36524;
      var q := rest / 1461;
      var r := rest % 1461;
      assert doe == 36524 * c + 1461 * q + r;
      YearOfEraInCentury(c, q, r);
      var k := if r / 365 < 3 then r / 365 else 3;
      DaysBeforeYearInCentury(c, q, k);
    }
  }

  /** Shifting by whole eras keeps the leap-year rule: the March-based
      year `yoe` of era `era` ends with a leap day exactly when the civil
      year that contains that day is a leap year. */
  lemma LeapDayShift(yoe: int, era: int)
    requires 0 <= yoe < 400 && 0 <= era
    ensures EndsWithLeapDay(yoe) <==> IsLeapYear(yoe + 1 + era * 400)
  {
    var x := yoe + 1;
    assert era * 400 == (era * 100) * 4 == (era * 4) * 100;
    ModShift(x, era * 100, 4);
    ModShift(x, era * 4, 100);
    ModShift(x, era, 400);
  }

  /** Adding whole multiples of the divisor leaves the remainder alone. */
  lemma ModShift(x: int, k: int, d: int)
    requires 0 <= x && 0 <= k && 0 < d
    ensures (x + k * d) % d == x % d
  {
    DivBy(x + k * d, d, x / d + k);
  }

  /** The month-of-year step: from a day of a March-based year to the month
      and the day of the month. */
  lemma MonthOfDayOfYear(doy: int, leap: bool)
    requires 0 <= doy <= (if leap then 365 else 364)
    ensures var mp := (5 * doy + 2) / 153;
            var m := if mp < 10 then mp + 3 else mp - 9;
            var d := doy - (153 * mp + 2) / 5 + 1;
            0 <= mp <= 11 && 1 <= d &&
            d <= (if m == 2 then (if leap then 29 else 28)
                  else if m == 4 || m == 6 || m == 9 || m == 11 then 30 else 31)
  {
  }

  // ---------------------------------------------------------------------
  // days_to_ymd and now_iso8601
  // ---------------------------------------------------------------------

  /** Reading a date back with `DaysFromCivil` recovers the era, the year
      of the era and the day of the year it was built from. */
  lemma {:induction false} CivilInverse(era: int, yoe: int, doy: int, mp: int, y: int, m: int, d: int)
    requires 0 <= era && 0 <= yoe < 400 && 0 <= doy && 0 <= mp <= 11
    requires mp == (5 * doy + 2) / 153 && d == doy - (153 * mp + 2) / 5 + 1
    requires m == (if mp < 10 then mp + 3 else mp - 9)
    requires y == (if m <= 2 then yoe + era * 400 + 1 else yoe + era * 400)
    ensures DaysFromCivil(y, m, d) == era * 146097 + DaysBeforeYear(yoe) + doy - 719468
  {
    DivBy(yoe + era * 400, 400, era);
    assert (if m > 2 then m - 3 else m + 9) == mp;
  }

  /** Everything `days_to_ymd` relies on, about its intermediate values. */
  lemma {:induction false} CivilFromDaysFacts(z: int, era: int, doe: int, yoe: int, doy: int, mp: int, m: int, d: int, y: int)
    requires 0 <= z && era == z / 146097 && doe == z - era * 146097
    requires yoe == YearOfEra(doe) && doy == doe - DaysBeforeYear(yoe)
    requires mp == (5 * doy + 2) / 153 && d == doy - (153 * mp + 2) / 5 + 1
    requires m == (if mp < 10 then mp + 3 else mp - 9)
    requires y == (if m <= 2 then yoe + era * 400 + 1 else yoe + era * 400)
    ensures 0 <= doe && 0 <= yoe < 400 && 0 <= doy && 0 <= mp
    ensures 1 <= m <= 12 && 1 <= d <= DaysInMonth(y, m)
    ensures DaysFromCivil(y, m, d) == z - 719468
  {
    YearOfEraCorrect(doe);
    LeapDayShift(yoe, era);
    MonthOfDayOfYear(doy, EndsWithLeapDay(yoe));
    CivilInverse(era, yoe, doy, mp, y, m, d);
  }

  /** `days_to_ymd`: the civil date `days` days after 1970-01-01. Every
      intermediate value stays within `u64` (no subtraction underflows) as
      long as `days + 719468` does not overflow. */
  function DaysToYmd(days: u64): (r: Date)
    requires days <= U64_MAX - 719468
    ensures 1 <= r.month <= 12
    ensures 1 <= r.day <= DaysInMonth(r.year, r.month)
    ensures DaysFromCivil(r.year, r.month, r.day) == days
  {
    var z := days + 719468;
    var era := z / 146097;
    var doe := z - era * 146097;
    var yoe := (doe - doe / 1460 + doe / 36524 - doe / 146096) / 365;
    var y := yoe + era * 400;
    var doy := doe - (365 * yoe + yoe / 4 - yoe / 100);
    var mp := (5 * doy + 2) / 153;
    var d := doy - (153 * mp + 2) / 5 + 1;
    var m := if mp < 10 then mp + 3 else mp - 9;
    var y := if m <= 2 then y + 1 else y;
    CivilFromDaysFacts(z, era, doe, yoe, doy, mp, m, d, y);
    Date(y, m, d)
  }

  /** Unix day 0 is 1970-01-01. */
  lemma EpochDay()
    ensures DaysToYmd(0) == Date(1970, 1, 1)
  {
    // z = 719468 lies in era 4, at day 135080 of that era.
    DivBy(719468, 146097, 4);
    DivBy(135080, 1460, 92);
    DivBy(135080, 36524, 3);
    DivBy(135080, 146096, 0);
    // Year 369 of the era, day 306 of that March-based year: January 1st.
    DivBy(134991, 365, 369);
    DivBy(369, 4, 92);
    DivBy(369, 100, 3);
    DivBy(1532, 153, 10);
    DivBy(1532, 5, 306);
  }

  datatype Clock = Clock(days: nat, hour: nat, minute: nat, second: nat)

  /** The split of `now_iso8601`: whole days since the epoch and the time
      of day. */
  function SplitSeconds(secs: u64): (r: Clock)
    ensures r.hour < 24 && r.minute < 60 && r.second < 60
    ensures r.days * 86400 + r.hour * 3600 + r.minute * 60 + r.second == secs
  {
    var days := secs / 86400;
    var timeOfDay := secs % 86400;
    Clock(days, timeOfDay / 3600, (timeOfDay % 3600) / 60, timeOfDay % 60)
  }

  /** `now_iso8601` at the instant `secs` seconds after the epoch. */
  function Iso8601(secs: u64): (r: string)
    ensures |r| >= 20 && r[|r| - 1] == 'Z'
  {
    var c := SplitSeconds(secs);
    Format(DaysToYmd(c.days), c)
  }

  /** `format!("{:04}-{:02}-{:02}T{:02}:{:02}:{:02}Z", ...)` of a date and a
      time of day. */
  function Format(date: Date, c: Clock): string {
    ZeroPad(date.year, 4) + "-" + ZeroPad(date.month, 2) + "-" + ZeroPad(date.day, 2) + "T" +
    ZeroPad(c.hour, 2) + ":" + ZeroPad(c.minute, 2) + ":" + ZeroPad(c.second, 2) + "Z"
  }

  /** The civil date of the instant `secs`. */
  function DateOf(secs: u64): Date {
    DaysToYmd(secs / 86400)
  }

  /** The six numeric fields of a `YYYY-MM-DDTHH:MM:SSZ` timestamp. */
  datatype Fields = Fields(year: nat, month: nat, day: nat, hour: nat, minute: nat, second: nat)

  /** Reads the fields of a timestamp of the form `YYYY-MM-DDTHH:MM:SSZ`. */
  function ParseFields(s: string): Option<Fields> {
    if |s| == 20 && s[4] == '-' && s[7] == '-' && s[10] == 'T' && s[13] == ':' && s[16] == ':' && s[19] == 'Z' &&
       AllDigits(s[0..4]) && AllDigits(s[5..7]) && AllDigits(s[8..10]) &&
       AllDigits(s[11..13]) && AllDigits(s[14..16]) && AllDigits(s[17..19])
    then
      Some(Fields(DecimalValue(s[0..4]), DecimalValue(s[5..7]), DecimalValue(s[8..10]),
                  DecimalValue(s[11..13]), DecimalValue(s[14..16]), DecimalValue(s[17..19])))
    else None
  }

  /** The instant that timestamp fields name, in seconds since the epoch. */
  function Instant(f: Fields): int
    requires 1 <= f.month <= 12
  {
    DaysFromCivil(f.year, f.month, f.day) * 86400 + f.hour * 3600 + f.minute * 60 + f.second
  }

  lemma FieldPositions(year: string, month: string, day: string, hh: string, mm: string, ss: string)
    requires |year| == 4 && |month| == 2 && |day| == 2 && |hh| == 2 && |mm| == 2 && |ss| == 2
    ensures var s := year + "-" + month + "-" + day + "T" + hh + ":" + mm + ":" + ss + "Z";
            |s| == 20 && s[4] == '-' && s[7] == '-' && s[10] == 'T' && s[13] == ':' && s[16] == ':' && s[19] == 'Z' &&
            s[0..4] == year && s[5..7] == month && s[8..10] == day &&
            s[11..13] == hh && s[14..16] == mm && s[17..19] == ss
  {
    var s := year + "-" + month + "-" + day + "T" + hh + ":" + mm + ":" + ss + "Z";
    var tail := month + "-" + day + "T" + hh + ":" + mm + ":" + ss + "Z";
    assert s == year + "-" + tail;
    assert s[5..7] == tail[0..2];
    assert s[8..10] == tail[3..5];
    assert s[11..13] == tail[6..8];
    assert s[14..16] == tail[9..11];
    assert s[17..19] == tail[12..14];
  }

  /** Each field of a formatted timestamp sits at its fixed position. */
  lemma {:induction false} FormatLayout(date: Date, c: Clock)
    requires date.year < 10000 && date.month < 100 && date.day < 100
    requires c.hour < 100 && c.minute < 100 && c.second < 100
    ensures var s := Format(date, c);
            |s| == 20 && s[4] == '-' && s[7] == '-' && s[10] == 'T' && s[13] == ':' && s[16] == ':' && s[19] == 'Z' &&
            s[0..4] == ZeroPad(date.year, 4) && s[5..7] == ZeroPad(date.month, 2) && s[8..10] == ZeroPad(date.day, 2) &&
            s[11..13] == ZeroPad(c.hour, 2) && s[14..16] == ZeroPad(c.minute, 2) && s[17..19] == ZeroPad(c.second, 2)
  {
    ZeroPadExactWidth(date.year, 4);
    ZeroPadExactWidth(date.month, 2);
    ZeroPadExactWidth(date.day, 2);
    ZeroPadExactWidth(c.hour, 2);
    ZeroPadExactWidth(c.minute, 2);
    ZeroPadExactWidth(c.second, 2);
    FieldPositions(ZeroPad(date.year, 4), ZeroPad(date.month, 2), ZeroPad(date.day, 2),
                   ZeroPad(c.hour, 2), ZeroPad(c.minute, 2), ZeroPad(c.second, 2));
  }

  /** For years up to 9999 the timestamp has the fixed 20-character layout
      and reads back as the instant it was printed from. */
  lemma {:induction false} Iso8601RoundTrip(secs: u64)
    requires DateOf(secs).year <= 9999
    ensures |Iso8601(secs)| == 20
    ensures ParseFields(Iso8601(secs)).Some?
    ensures var f := ParseFields(Iso8601(secs)).value;
            && 1 <= f.month <= 12 && 1 <= f.day <= DaysInMonth(f.year, f.month)
            && f.hour < 24 && f.minute < 60 && f.second < 60
            && Instant(f) == secs
  {
    var c := SplitSeconds(secs);
    ParseBack(Iso8601(secs), DaysToYmd(c.days), c, secs);
  }

  /** The step of the round trip that no longer needs `days_to_ymd`: a
      formatted valid date and time read back as the instant they name. */
  lemma ParseBack(s: string, date: Date, c: Clock, secs: int)
    requires s == Format(date, c)
    requires date.year < 10000 && 1 <= date.month <= 12 && date.day <= 31
    requires c.hour < 24 && c.minute < 60 && c.second < 60
    requires DaysFromCivil(date.year, date.month, date.day) == c.days
    requires c.days * 86400 + c.hour * 3600 + c.minute * 60 + c.second == secs
    ensures |s| == 20
    ensures ParseFields(s) == Some(Fields(date.year, date.month, date.day, c.hour, c.minute, c.second))
    ensures Instant(Fields(date.year, date.month, date.day, c.hour, c.minute, c.second)) == secs
  {
    ParseFormat(date, c);
  }

  /** Reading the fields of a formatted date and time of day gives them back. */
  lemma {:induction false} ParseFormat(date: Date, c: Clock)
    requires date.year < 10000 && date.month < 100 && date.day < 100
    requires c.hour < 100 && c.minute < 100 && c.second < 100
    ensures ParseFields(Format(date, c)) == Some(Fields(date.year, date.month, date.day, c.hour, c.minute, c.second))
  {
    var s := Format(date, c);
    FormatLayout(date, c);
    assert DecimalValue(s[0..4]) == date.year && DecimalValue(s[5..7]) == date.month && DecimalValue(s[8..10]) == date.day;
    assert DecimalValue(s[11..13]) == c.hour && DecimalValue(s[14..16]) == c.minute && DecimalValue(s[17..19]) == c.second;
  }
}
