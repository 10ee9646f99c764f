/** Calendar arithmetic of the `time` crate (libs/time/src/date.rs): leap
    years, month lengths, epoch days to a calendar date, and the
    `YYYY-MM-DDTHH:MM:SS` timestamp text.

    The clock is not read here: the seconds since the Unix epoch are a
    parameter. A `panic!` of the source is the `None` of an `Option`. */
module Time {
  import opened Strings

  /** A timestamp: seconds since the epoch and the formatted text. */
  datatype Date = Date(timestamp: nat, formatted: string)

  /** A calendar date as `days_since_epoch_to_ymd` returns it. */
  datatype Ymd = Ymd(year: nat, month: nat, day: nat)

  const EPOCH_YEAR: nat := 1970
  const SECONDS_PER_DAY: nat := 24 * 60 * 60

  // Rust's `%` truncates toward zero and Dafny's is Euclidean, but the two
  // agree on whether the remainder is zero, which is all this test asks.
  predicate IsLeapYearUtc(year: int)
  {
    (year % 4 == 0 && year % 100 != 0) || year % 400 == 0
  }

  function DaysInYear(year: int): (d: nat)
    ensures d == 365 || d == 366
    ensures d == 366 <==> IsLeapYearUtc(year)
  {
    if IsLeapYearUtc(year) then 366 else 365
  }

  // -----------------------------------------------------------------------
  // Month lengths
  // -----------------------------------------------------------------------

  /** `days_in_month_utc`; `None` is the `panic!("Invalid month")` arm. */
  function DaysInMonthUtc(year: int, month: int): (r: Option<nat>)
    ensures r.Some? <==> 1 <= month <= 12
    ensures r.Some? ==> 28 <= r.value <= 31
  {
    if month < 1 || month > 12 then None
    else if month == 2 then (if IsLeapYearUtc(year) then Some(29) else Some(28))
    else if month == 4 || month == 6 || month == 9 || month == 11 then Some(30)
    else Some(31)
  }

  /** February has 29 days exactly in leap years; every other valid month
      has 30 or 31. */
  lemma FebruaryFollowsLeapYears(year: int, month: int)
    requires 1 <= month <= 12
    ensures month == 2 ==> (DaysInMonthUtc(year, month) == Some(29) <==> IsLeapYearUtc(year))
    ensures month != 2 ==> DaysInMonthUtc(year, month).value >= 30
  {
  }

  /** The month lengths of `year`, January first. */
  function MonthTable(year: int): (t: seq<nat>)
    ensures |t| == 12
    ensures forall k :: 0 <= k < 12 ==> t[k] == DaysInMonthUtc(year, k + 1).value
  {
    seq(12, k requires 0 <= k < 12 => DaysInMonthUtc(year, k + 1).value)
  }

  /** Length of a month known to be valid. */
  function MonthLength(year: int, month: int): (d: nat)
    requires 1 <= month <= 12
    ensures 28 <= d <= 31
  {
    MonthTable(year)[month - 1]
  }

  /** Days in the months of a table before `month` (months one-based). */
  function Prefix(lens: seq<nat>, month: nat): nat
    requires 1 <= month <= |lens| + 1
    decreases month
  {
    if month == 1 then 0 else Prefix(lens, month - 1) + lens[month - 2]
  }

  lemma {:induction false} PrefixMonotone(lens: seq<nat>, a: nat, b: nat)
    requires 1 <= a <= b <= |lens| + 1
    ensures Prefix(lens, a) <= Prefix(lens, b)
    decreases b - a
  {
    if a < b {
      PrefixMonotone(lens, a, b - 1);
    }
  }

  /** Days in the months before `month` of `year`. */
  function DaysBeforeMonth(year: int, month: int): nat
    requires 1 <= month <= 13
  {
    Prefix(MonthTable(year), month)
  }

  /** The twelve month lengths add up to the length of the year. */
  lemma MonthsSumToYear(year: int)
    ensures DaysBeforeMonth(year, 13) == DaysInYear(year)
  {
    var t := MonthTable(year);
    assert Prefix(t, 4) == 90 + t[1] - 28;
    assert Prefix(t, 8) == Prefix(t, 4) + 122;
    assert Prefix(t, 13) == Prefix(t, 8) + 153;
  }

  // -----------------------------------------------------------------------
  // The year loop
  // -----------------------------------------------------------------------

  /** Days of the years `first`, `first + 1`, ..., `limit - 1`. */
  function DaysBetween(first: int, limit: int): nat
    requires first <= limit
    decreases limit - first
  {
    if first == limit then 0 else DaysInYear(first) + DaysBetween(first + 1, limit)
  }

  /** The year loop of `days_since_epoch_to_ymd`, started at `year`: the
      year that contains day `days` and the day's index inside it. */
  function YearOf(days: nat, year: nat): (r: (nat, nat))
    ensures r.0 >= year && r.1 < DaysInYear(r.0)
    ensures DaysBetween(year, r.0) + r.1 == days
    decreases days
  {
    if days < DaysInYear(year) then (year, days)
    else YearOf(days - DaysInYear(year), year + 1)
  }

  /** A day index inside `year` stays put when counted from an earlier year. */
  lemma {:induction false} YearOfInverse(year: nat, start: nat, dayOfYear: nat)
    requires start <= year && dayOfYear < DaysInYear(year)
    ensures YearOf(DaysBetween(start, year) + dayOfYear, start) == (year, dayOfYear)
    decreases year - start
  {
    if start < year {
      YearOfInverse(year, start + 1, dayOfYear);
    }
  }

  // -----------------------------------------------------------------------
  // `days_since_epoch_to_ymd` as written
  // -----------------------------------------------------------------------

  /** The month loop as written: it compares with and subtracts
      `days_in_month_utc(year, month) - 1`, and it calls
      `days_in_month_utc` with month 13 (a panic, `None`) when the day of
      the year is late enough. */
  function MonthDayAsWritten(year: int, month: int, days: nat): (r: Option<(nat, nat)>)
    requires 1 <= month <= 13
    ensures r.Some? ==> month <= r.value.0 <= 12
    ensures r.Some? ==> 1 <= r.value.1 < MonthLength(year, r.value.0)
    decreases 13 - month
  {
    match DaysInMonthUtc(year, month)
    case None => None
    case Some(dim) =>
      if days >= dim - 1 then MonthDayAsWritten(year, month + 1, days - (dim - 1))
      else Some((month, days + 1))
  }

  /** `days_since_epoch_to_ymd` as written; `None` is the panic. */
  function YmdAsWritten(daysSinceEpoch: nat): Option<Ymd>
  {
    var (year, dayOfYear) := YearOf(daysSinceEpoch, EPOCH_YEAR);
    match MonthDayAsWritten(year, 1, dayOfYear)
    case None => None
    case Some((month, day)) => Some(Ymd(year, month, day))
  }

  predicate NoEmptyMonth(lens: seq<nat>)
  {
    forall k :: 0 <= k < |lens| ==> lens[k] >= 1
  }

  /** The as-written month loop over any table of month lengths (months
      one-based): each month counts one day short, and running off the end
      of the table is the panic. */
  function ShrunkWalk(lens: seq<nat>, month: nat, days: nat): Option<(nat, nat)>
    requires 1 <= month <= |lens| + 1 && NoEmptyMonth(lens)
    decreases |lens| + 1 - month
  {
    if month == |lens| + 1 then None
    else if days >= lens[month - 1] - 1 then ShrunkWalk(lens, month + 1, days - (lens[month - 1] - 1))
    else Some((month, days + 1))
  }

  /** Days the walk steps over before `month`: one fewer per month than the
      table holds. */
  function Shrunk(lens: seq<nat>, month: nat): nat
    requires 1 <= month <= |lens| + 1 && NoEmptyMonth(lens)
    decreases month
  {
    if month == 1 then 0 else Shrunk(lens, month - 1) + lens[month - 2] - 1
  }

  lemma {:induction false} ShrunkMonotone(lens: seq<nat>, a: nat, b: nat)
    requires 1 <= a <= b <= |lens| + 1 && NoEmptyMonth(lens)
    ensures Shrunk(lens, a) <= Shrunk(lens, b)
    decreases b - a
  {
    if a < b {
      ShrunkMonotone(lens, a, b - 1);
    }
  }

  /** The shrunk span before a month is the true span less one day per
      earlier month. */
  lemma {:induction false} ShrunkIsShifted(lens: seq<nat>, month: nat)
    requires 1 <= month <= |lens| + 1 && NoEmptyMonth(lens)
    ensures Shrunk(lens, month) + (month - 1) == Prefix(lens, month)
    decreases month
  {
    if month > 1 {
      ShrunkIsShifted(lens, month - 1);
    }
  }

  /** The walk, from any month on, panics exactly when the day lies past
      the shrunk span of the whole table. */
  lemma {:induction false} ShrunkWalkPanics(lens: seq<nat>, month: nat, dayOfYear: nat)
    requires 1 <= month <= |lens| + 1 && NoEmptyMonth(lens)
    requires Shrunk(lens, month) <= dayOfYear
    ensures ShrunkWalk(lens, month, dayOfYear - Shrunk(lens, month)).None?
        <==> dayOfYear >= Shrunk(lens, |lens| + 1)
    decreases |lens| + 1 - month
  {
    if month <= |lens| {
      assert Shrunk(lens, month + 1) == Shrunk(lens, month) + lens[month - 1] - 1;
      if dayOfYear - Shrunk(lens, month) >= lens[month - 1] - 1 {
        ShrunkWalkPanics(lens, month + 1, dayOfYear);
      } else {
        ShrunkMonotone(lens, month + 1, |lens| + 1);
      }
    }
  }

  /** When the walk returns `(m, day)`, month `m` is the one whose shrunk
      span holds the day, and the day is counted from one inside it. */
  lemma {:induction false} ShrunkWalkMeaning(lens: seq<nat>, month: nat, dayOfYear: nat, m: nat, day: nat)
    requires 1 <= month <= |lens| + 1 && NoEmptyMonth(lens)
    requires Shrunk(lens, month) <= dayOfYear
    requires ShrunkWalk(lens, month, dayOfYear - Shrunk(lens, month)) == Some((m, day))
    ensures month <= m <= |lens|
    ensures Shrunk(lens, m) <= dayOfYear < Shrunk(lens, m + 1)
    ensures day == dayOfYear - Shrunk(lens, m) + 1
    decreases |lens| + 1 - month
  {
    assert month <= |lens|;
    assert Shrunk(lens, month + 1) == Shrunk(lens, month) + lens[month - 1] - 1;
    if dayOfYear - Shrunk(lens, month) >= lens[month - 1] - 1 {
      ShrunkWalkMeaning(lens, month + 1, dayOfYear, m, day);
    }
  }

  /** The source's month loop is the walk over the year's month table. */
  lemma {:induction false} MonthDayAsWrittenIsWalk(year: int, month: int, days: nat)
    requires 1 <= month <= 13
    ensures NoEmptyMonth(MonthTable(year))
    ensures MonthDayAsWritten(year, month, days) == ShrunkWalk(MonthTable(year), month, days)
    decreases 13 - month
  {
    var lens := MonthTable(year);
    if month <= 12 {
      var dim := lens[month - 1];
      if days >= dim - 1 {
        MonthDayAsWrittenIsWalk(year, month + 1, days - (dim - 1));
      }
    }
  }

  /** The as-written conversion is the year loop followed by the month
      loop. */
  lemma YmdAsWrittenParts(daysSinceEpoch: nat, year: nat, dayOfYear: nat)
    requires YearOf(daysSinceEpoch, EPOCH_YEAR) == (year, dayOfYear)
    ensures YmdAsWritten(daysSinceEpoch).None? <==> MonthDayAsWritten(year, 1, dayOfYear).None?
    ensures YmdAsWritten(daysSinceEpoch).Some? ==>
      var (month, day) := MonthDayAsWritten(year, 1, dayOfYear).value;
      YmdAsWritten(daysSinceEpoch).value == Ymd(year, month, day)
  {
  }

  /** The walk from the first month panics exactly past the table's
      shrunk span, which is the table's span less one day per month. */
  lemma ShrunkWalkFromFirstMonth(lens: seq<nat>, dayOfYear: nat)
    requires NoEmptyMonth(lens)
    ensures ShrunkWalk(lens, 1, dayOfYear).None? <==> dayOfYear + |lens| >= Prefix(lens, |lens| + 1)
  {
    ShrunkWalkPanics(lens, 1, dayOfYear);
    ShrunkIsShifted(lens, |lens| + 1);
  }

  /** The month loop panics for the last twelve days of every year
      (day of year 353 and later, 354 and later in a leap year). */
  lemma AsWrittenPanicWindow(daysSinceEpoch: nat)
    ensures var (year, dayOfYear) := YearOf(daysSinceEpoch, EPOCH_YEAR);
      YmdAsWritten(daysSinceEpoch).None? <==> dayOfYear >= DaysInYear(year) - 12
  {
    var yd := YearOf(daysSinceEpoch, EPOCH_YEAR);
    var lens := MonthTable(yd.0);
    YmdAsWrittenParts(daysSinceEpoch, yd.0, yd.1);
    MonthDayAsWrittenIsWalk(yd.0, 1, yd.1);
    ShrunkWalkFromFirstMonth(lens, yd.1);
    MonthsSumToYear(yd.0);
  }

  /** When the as-written conversion returns a date, its day runs ahead of
      the true day of the month by one day per month before it: the date
      it names is `month - 1` days later than the epoch day. */
  lemma AsWrittenDrift(daysSinceEpoch: nat)
    requires YmdAsWritten(daysSinceEpoch).Some?
    ensures var (year, dayOfYear) := YearOf(daysSinceEpoch, EPOCH_YEAR);
      var d := YmdAsWritten(daysSinceEpoch).value;
      && d.year == year && 1 <= d.month <= 12
      && DaysBeforeMonth(year, d.month) + d.day - 1 == dayOfYear + (d.month - 1)
  {
    var yd := YearOf(daysSinceEpoch, EPOCH_YEAR);
    var lens := MonthTable(yd.0);
    YmdAsWrittenParts(daysSinceEpoch, yd.0, yd.1);
    MonthDayAsWrittenIsWalk(yd.0, 1, yd.1);
    var (m, day) := ShrunkWalk(lens, 1, yd.1).value;
    assert Shrunk(lens, 1) == 0;
    ShrunkWalkMeaning(lens, 1, yd.1, m, day);
    ShrunkIsShifted(lens, m);
  }

  /** Counterexample: epoch day 30 is 31 January 1970, but the loop as
      written returns 1 February. */
  lemma AsWrittenMisdatesJanuary31()
    ensures YmdAsWritten(30) == Some(Ymd(1970, 2, 1))
    ensures YmdCorrected(30) == Ymd(1970, 1, 31)
  {
  }

  /** Counterexample: epoch day 353 is 20 December 1970, but the loop as
      written reaches month 13 and panics. */
  lemma AsWrittenPanicsOnDecember20()
    ensures YmdAsWritten(353) == None
    ensures YmdCorrected(353) == Ymd(1970, 12, 20)
  {
    AsWrittenPanicsOnDay353();
    CorrectedDay353();
  }

  lemma AsWrittenPanicsOnDay353()
    ensures YmdAsWritten(353) == None
  {
    assert YearOf(353, EPOCH_YEAR) == (1970, 353);
    YmdAsWrittenParts(353, 1970, 353);
  }

  /** Day 353 of a common year is 20 December. */
  lemma CommonYearDay353(year: int)
    requires !IsLeapYearUtc(year)
    ensures 353 < Prefix(MonthTable(year), 13)
    ensures Walk(MonthTable(year), 1, 353) == (12, 20)
  {
    var t := MonthTable(year);
    MonthsSumToYear(year);
    assert Prefix(t, 13) == Prefix(t, 12) + t[11];
    WalkFromFirstMonth(t, 12, 20);
  }

  lemma CorrectedDay353()
    ensures YmdCorrected(353) == Ymd(1970, 12, 20)
  {
    assert YearOf(353, EPOCH_YEAR) == (1970, 353);
    CommonYearDay353(1970);
    YmdCorrectedParts(353, 1970, 353, 12, 20);
  }

  /** The as-written conversion implemented with the source's two loops. */
  method DaysSinceEpochToYmd(daysSinceEpoch: nat) returns (r: Option<Ymd>)
    ensures r == YmdAsWritten(daysSinceEpoch)
    ensures r.Some? ==> r.value.year >= EPOCH_YEAR && 1 <= r.value.month <= 12
    ensures r.Some? ==> 1 <= r.value.day < MonthLength(r.value.year, r.value.month)
  {
    var year: nat := EPOCH_YEAR;
    var days: nat := daysSinceEpoch;
    while days >= DaysInYear(year)
      invariant year >= EPOCH_YEAR
      invariant YearOf(days, year) == YearOf(daysSinceEpoch, EPOCH_YEAR)
      decreases days
    {
      days := days - DaysInYear(year);
      year := year + 1;
    }
    ghost var dayOfYear := days;
    assert YearOf(daysSinceEpoch, EPOCH_YEAR) == (year, dayOfYear);
    YmdAsWrittenParts(daysSinceEpoch, year, dayOfYear);
    var month := 1;
    while true
      invariant 1 <= month <= 13
      invariant MonthDayAsWritten(year, month, days) == MonthDayAsWritten(year, 1, dayOfYear)
      decreases 13 - month
    {
      var dim := DaysInMonthUtc(year, month);
      if dim.None? {
        return None;
      }
      if days < dim.value - 1 {
        break;
      }
      days := days - (dim.value - 1);
      month := month + 1;
    }
    r := Some(Ymd(year, month, days + 1));
  }

  // -----------------------------------------------------------------------
  // The conversion the comments at date.rs:33 and :39 describe
  // -----------------------------------------------------------------------

  /** The month loop with whole month lengths, over any table. */
  function Walk(lens: seq<nat>, month: nat, days: nat): (r: (nat, nat))
    requires 1 <= month <= |lens|
    requires Prefix(lens, month) + days < Prefix(lens, |lens| + 1)
    ensures month <= r.0 <= |lens| && 1 <= r.1 <= lens[r.0 - 1]
    ensures Prefix(lens, r.0) + r.1 - 1 == Prefix(lens, month) + days
    decreases |lens| - month
  {
    if days >= lens[month - 1] then Walk(lens, month + 1, days - lens[month - 1])
    else (month, days + 1)
  }

  /** One turn of the walk past a whole month. */
  lemma WalkStep(lens: seq<nat>, month: nat, days: nat)
    requires 1 <= month <= |lens|
    requires Prefix(lens, month) + days < Prefix(lens, |lens| + 1)
    requires days >= lens[month - 1]
    ensures month < |lens|
    ensures Prefix(lens, month + 1) + (days - lens[month - 1]) < Prefix(lens, |lens| + 1)
    ensures Walk(lens, month, days) == Walk(lens, month + 1, days - lens[month - 1])
  {
  }

  /** A day of a month of the table lies inside the table's span, after the
      months before any earlier month. */
  lemma DayInsideTable(lens: seq<nat>, start: nat, month: nat, day: nat)
    requires 1 <= start <= month <= |lens| && 1 <= day <= lens[month - 1]
    ensures Prefix(lens, start) <= Prefix(lens, month)
    ensures Prefix(lens, month) + day - 1 < Prefix(lens, |lens| + 1)
  {
    PrefixMonotone(lens, start, month);
    PrefixMonotone(lens, month + 1, |lens| + 1);
  }

  /** Started at any earlier month, the walk finds a month and day again
      from the days before it. */
  lemma {:induction false} WalkInverse(lens: seq<nat>, start: nat, month: nat, day: nat)
    requires 1 <= start <= month <= |lens| && 1 <= day <= lens[month - 1]
    ensures Prefix(lens, start) <= Prefix(lens, month)
    ensures Prefix(lens, month) + day - 1 < Prefix(lens, |lens| + 1)
    ensures Walk(lens, start, Prefix(lens, month) + day - 1 - Prefix(lens, start)) == (month, day)
    decreases month - start
  {
    DayInsideTable(lens, start, month, day);
    if start < month {
      var days := Prefix(lens, month) + day - 1 - Prefix(lens, start);
      assert Prefix(lens, start + 1) == Prefix(lens, start) + lens[start - 1];
      DayInsideTable(lens, start + 1, month, day);
      WalkStep(lens, start, days);
      WalkInverse(lens, start + 1, month, day);
    }
  }

  /** Started at the first month, the walk inverts `Prefix`. */
  lemma WalkFromFirstMonth(lens: seq<nat>, month: nat, day: nat)
    requires 1 <= month <= |lens| && 1 <= day <= lens[month - 1]
    ensures Prefix(lens, month) + day - 1 < Prefix(lens, |lens| + 1)
    ensures Walk(lens, 1, Prefix(lens, month) + day - 1) == (month, day)
  {
    WalkInverse(lens, 1, month, day);
  }

  /** Epoch days of a calendar date (the inverse conversion). */
  function EpochDays(d: Ymd): nat
    requires d.year >= EPOCH_YEAR && 1 <= d.month <= 12 && d.day >= 1
  {
    DaysBetween(EPOCH_YEAR, d.year) + DaysBeforeMonth(d.year, d.month) + d.day - 1
  }

  predicate ValidDate(d: Ymd)
  {
    d.year >= EPOCH_YEAR && 1 <= d.month <= 12 && 1 <= d.day <= MonthLength(d.year, d.month)
  }

  /** Epoch days to the calendar date, month and day one-based. */
  function YmdCorrected(daysSinceEpoch: nat): (r: Ymd)
    ensures ValidDate(r)
    ensures EpochDays(r) == daysSinceEpoch
  {
    var (year, dayOfYear) := YearOf(daysSinceEpoch, EPOCH_YEAR);
    MonthsSumToYear(year);
    var (month, day) := Walk(MonthTable(year), 1, dayOfYear);
    Ymd(year, month, day)
  }

  /** The corrected conversion is the year loop followed by the walk. */
  lemma YmdCorrectedParts(daysSinceEpoch: nat, year: nat, dayOfYear: nat, month: nat, day: nat)
    requires YearOf(daysSinceEpoch, EPOCH_YEAR) == (year, dayOfYear)
    requires dayOfYear < Prefix(MonthTable(year), 13)
    requires Walk(MonthTable(year), 1, dayOfYear) == (month, day)
    ensures YmdCorrected(daysSinceEpoch) == Ymd(year, month, day)
  {
  }

  /** The year loop finds a valid date's year and its day of the year
      again from its epoch days. */
  lemma EpochDaysYear(d: Ymd)
    requires ValidDate(d)
    ensures DaysBeforeMonth(d.year, d.month) + d.day - 1 < DaysInYear(d.year)
    ensures YearOf(EpochDays(d), EPOCH_YEAR) == (d.year, DaysBeforeMonth(d.year, d.month) + d.day - 1)
  {
    var dayOfYear := DaysBeforeMonth(d.year, d.month) + d.day - 1;
    DayOfYearInRange(d.year, d.month, d.day);
    YearOfInverse(d.year, EPOCH_YEAR, dayOfYear);
    assert EpochDays(d) == DaysBetween(EPOCH_YEAR, d.year) + dayOfYear;
  }

  /** A day of a valid month falls inside its year. */
  lemma DayOfYearInRange(year: int, month: int, day: nat)
    requires 1 <= month <= 12 && 1 <= day <= MonthLength(year, month)
    ensures DaysBeforeMonth(year, month) + day - 1 < DaysInYear(year)
  {
    WalkFromFirstMonth(MonthTable(year), month, day);
    MonthsSumToYear(year);
  }

  /** Every valid date survives the round trip through epoch days. */
  lemma DateRoundTrip(d: Ymd)
    requires ValidDate(d)
    ensures YmdCorrected(EpochDays(d)) == d
  {
    var lens := MonthTable(d.year);
    EpochDaysYear(d);
    WalkFromFirstMonth(lens, d.month, d.day);
    YmdCorrectedParts(EpochDays(d), d.year, Prefix(lens, d.month) + d.day - 1, d.month, d.day);
  }

  // -----------------------------------------------------------------------
  // `format_system_time_manual_simple_date`
  // -----------------------------------------------------------------------

  datatype Clock = Clock(hour: nat, minute: nat, second: nat)

  /** Hours, minutes and seconds of the seconds left over in a day. */
  function ClockOf(remainingSeconds: nat): (c: Clock)
    requires remainingSeconds < SECONDS_PER_DAY
    ensures c.hour < 24 && c.minute < 60 && c.second < 60
    ensures c.hour * 3600 + c.minute * 60 + c.second == remainingSeconds
  {
    Clock((remainingSeconds / 3600) % 24, (remainingSeconds % 3600) / 60, remainingSeconds % 60)
  }

  /** `n` zero-padded to `width` digits, as `{:0width}` prints it. */
  function Padded(n: nat, width: nat): string
  {
    PadLeft(Decimal(n), width, '0')
  }

  /** A number below `10^width` prints as exactly `width` digits that
      denote it. */
  lemma PaddedField(n: nat, width: nat)
    requires width >= 1 && n < Pow10(width)
    ensures |Padded(n, width)| == width
    ensures AllDigits(Padded(n, width)) && DigitsValue(Padded(n, width)) == n
  {
    DecimalLength(n, width);
    PaddedDecimalRoundTrip(n, width);
  }

  /** Three fields joined by one separator character. */
  function Fields3(a: string, sep: char, b: string, c: string): string
  {
    a + [sep] + b + [sep] + c
  }

  lemma Fields3Parts(a: string, sep: char, b: string, c: string)
    ensures var t := Fields3(a, sep, b, c);
      && |t| == |a| + |b| + |c| + 2
      && t[..|a|] == a && t[|a|] == sep
      && t[|a| + 1..|a| + 1 + |b|] == b && t[|a| + 1 + |b|] == sep
      && t[|a| + |b| + 2..] == c
  {
    var t := Fields3(a, sep, b, c);
    assert t == a + ([sep] + b + [sep] + c);
    assert t[|a| + 1..] == b + [sep] + c;
    assert t[|a| + 1 + |b| + 1..] == c;
  }

  /** `{:04}-{:02}-{:02}T{:02}:{:02}:{:02}`. */
  function FormatFields(d: Ymd, c: Clock): string
  {
    Fields3(Padded(d.year, 4), '-', Padded(d.month, 2), Padded(d.day, 2)) + "T"
      + Fields3(Padded(c.hour, 2), ':', Padded(c.minute, 2), Padded(c.second, 2))
  }

  /** Digits `s[i..j]` read as a number, when they are all digits. */
  function FieldAt(s: string, i: nat, j: nat): Option<nat>
    requires i <= j <= |s|
  {
    if AllDigits(s[i..j]) then Some(DigitsValue(s[i..j])) else None
  }

  /** A reader of the `YYYY-MM-DDTHH:MM:SS` text. */
  function ParseTimestamp(s: string): Option<(Ymd, Clock)>
  {
    if |s| != 19 || s[4] != '-' || s[7] != '-' || s[10] != 'T' || s[13] != ':' || s[16] != ':' then None
    else
      var year, month, day := FieldAt(s, 0, 4), FieldAt(s, 5, 7), FieldAt(s, 8, 10);
      var hour, minute, second := FieldAt(s, 11, 13), FieldAt(s, 14, 16), FieldAt(s, 17, 19);
      if year.None? || month.None? || day.None? || hour.None? || minute.None? || second.None? then None
      else Some((Ymd(year.value, month.value, day.value), Clock(hour.value, minute.value, second.value)))
  }

  /** A field of digits followed by two two-digit fields, joined by one
      separator, reads back field by field. */
  lemma Fields3ReadBack(x: string, sep: char, y: string, z: string, a: nat, b: nat, c: nat)
    requires AllDigits(x) && AllDigits(y) && AllDigits(z) && |y| == 2 && |z| == 2
    requires DigitsValue(x) == a && DigitsValue(y) == b && DigitsValue(z) == c
    ensures var t := Fields3(x, sep, y, z);
      && |t| == |x| + 6 && t[|x|] == sep && t[|x| + 3] == sep
      && FieldAt(t, 0, |x|) == Some(a)
      && FieldAt(t, |x| + 1, |x| + 3) == Some(b)
      && FieldAt(t, |x| + 4, |x| + 6) == Some(c)
  {
    var t := Fields3(x, sep, y, z);
    Fields3Parts(x, sep, y, z);
    assert t[0..|x|] == x;
    assert t[|x| + 4..|x| + 6] == z;
  }

  /** A date part and a clock part with their fields in place read back
      once joined by the `T`. */
  lemma DateTimeReadBack(date: string, clock: string, d: Ymd, c: Clock)
    requires |date| == 10 && date[4] == '-' && date[7] == '-'
    requires |clock| == 8 && clock[2] == ':' && clock[5] == ':'
    requires FieldAt(date, 0, 4) == Some(d.year) && FieldAt(date, 5, 7) == Some(d.month)
    requires FieldAt(date, 8, 10) == Some(d.day)
    requires FieldAt(clock, 0, 2) == Some(c.hour) && FieldAt(clock, 3, 5) == Some(c.minute)
    requires FieldAt(clock, 6, 8) == Some(c.second)
    ensures ParseTimestamp(date + "T" + clock) == Some((d, c))
  {
    var s := date + "T" + clock;
    assert s[0..4] == date[0..4];
    assert s[5..7] == date[5..7];
    assert s[8..10] == date[8..10];
    assert s[11..13] == clock[0..2];
    assert s[14..16] == clock[3..5];
    assert s[17..19] == clock[6..8];
  }

  /** The timestamp text reads back to the date and clock it was printed
      from, for every year of at most four digits. */
  lemma TimestampRoundTrip(d: Ymd, c: Clock)
    requires d.year < 10000 && d.month < 100 && d.day < 100
    requires c.hour < 100 && c.minute < 100 && c.second < 100
    ensures |FormatFields(d, c)| == 19
    ensures ParseTimestamp(FormatFields(d, c)) == Some((d, c))
  {
    assert Pow10(4) == 10000;
    assert Pow10(2) == 100;
    PaddedField(d.year, 4);
    PaddedField(d.month, 2);
    PaddedField(d.day, 2);
    PaddedField(c.hour, 2);
    PaddedField(c.minute, 2);
    PaddedField(c.second, 2);
    var date := Fields3(Padded(d.year, 4), '-', Padded(d.month, 2), Padded(d.day, 2));
    var clock := Fields3(Padded(c.hour, 2), ':', Padded(c.minute, 2), Padded(c.second, 2));
    Fields3ReadBack(Padded(d.year, 4), '-', Padded(d.month, 2), Padded(d.day, 2), d.year, d.month, d.day);
    Fields3ReadBack(Padded(c.hour, 2), ':', Padded(c.minute, 2), Padded(c.second, 2), c.hour, c.minute, c.second);
    DateTimeReadBack(date, clock, d, c);
  }

  /** The formatted timestamp as written; `None` is the panic inherited
      from the month loop. */
  function FormatSimpleDate(seconds: nat): Option<string>
  {
    var days := seconds / SECONDS_PER_DAY;
    var remaining := seconds % SECONDS_PER_DAY;
    match YmdAsWritten(days)
    case None => None
    case Some(d) => Some(FormatFields(d, ClockOf(remaining)))
  }

  /** The same text with the corrected conversion; it never panics. */
  function FormatSimpleDateCorrected(seconds: nat): string
  {
    FormatFields(YmdCorrected(seconds / SECONDS_PER_DAY), ClockOf(seconds % SECONDS_PER_DAY))
  }

  /** Seconds split into whole days and a clock reading that adds back up. */
  lemma SecondsDecomposition(seconds: nat)
    ensures var days, rem := seconds / SECONDS_PER_DAY, seconds % SECONDS_PER_DAY;
      && days * SECONDS_PER_DAY + rem == seconds
      && var c := ClockOf(rem); c.hour * 3600 + c.minute * 60 + c.second == rem
  {
  }

  /** The as-written formatter panics exactly when the month loop does,
      and otherwise its text reads back to the loop's date and the clock
      of the remaining seconds (for years of at most four digits). */
  lemma FormatSimpleDateReadsBack(seconds: nat)
    ensures var days := seconds / SECONDS_PER_DAY;
      FormatSimpleDate(seconds).Some? <==> YmdAsWritten(days).Some?
    ensures var days := seconds / SECONDS_PER_DAY;
      FormatSimpleDate(seconds).Some? && YmdAsWritten(days).value.year < 10000 ==>
        ParseTimestamp(FormatSimpleDate(seconds).value)
          == Some((YmdAsWritten(days).value, ClockOf(seconds % SECONDS_PER_DAY)))
  {
    var days := seconds / SECONDS_PER_DAY;
    if YmdAsWritten(days).Some? {
      var d := YmdAsWritten(days).value;
      if d.year < 10000 {
        TimestampRoundTrip(d, ClockOf(seconds % SECONDS_PER_DAY));
      }
    }
  }

  /** With the corrected conversion the text denotes the instant it was
      made from: its date and clock add back up to the seconds. */
  lemma CorrectedTimestampDenotesInstant(seconds: nat)
    requires YmdCorrected(seconds / SECONDS_PER_DAY).year < 10000
    ensures var parsed := ParseTimestamp(FormatSimpleDateCorrected(seconds));
      && parsed.Some?
      && var (d, c) := parsed.value;
      && ValidDate(d)
      && EpochDays(d) * SECONDS_PER_DAY + c.hour * 3600 + c.minute * 60 + c.second == seconds
  {
    var days := seconds / SECONDS_PER_DAY;
    var d := YmdCorrected(days);
    var c := ClockOf(seconds % SECONDS_PER_DAY);
    TimestampRoundTrip(d, c);
    assert ParseTimestamp(FormatSimpleDateCorrected(seconds)) == Some((d, c));
    assert EpochDays(d) == days;
    SecondsDecomposition(seconds);
  }

  /** `Date::new` with the clock reading as a parameter; `None` is the
      month-loop panic that the `unwrap` passes on. */
  function NewDate(seconds: nat): (r: Option<Date>)
    ensures r.Some? <==> YmdAsWritten(seconds / SECONDS_PER_DAY).Some?
    ensures r.Some? ==> r.value.timestamp == seconds
    ensures r.Some? && YmdAsWritten(seconds / SECONDS_PER_DAY).value.year < 10000 ==>
      ParseTimestamp(r.value.formatted)
        == Some((YmdAsWritten(seconds / SECONDS_PER_DAY).value, ClockOf(seconds % SECONDS_PER_DAY)))
  {
    FormatSimpleDateReadsBack(seconds);
    match FormatSimpleDate(seconds)
    case None => None
    case Some(text) => Some(Date(seconds, text))
  }
}
