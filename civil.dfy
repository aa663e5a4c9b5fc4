/** Proleptic Gregorian calendar arithmetic: the conversions between civil
    dates and day or second counts relative to 1970-01-01T00:00:00 that the
    key computation relies on (parsing a timestamp to Unix seconds, and
    rendering aligned Unix seconds back to a civil date and time).

    Days are counted internally from 0000-03-01, in eras of 400 years
    (146097 days). Inside an era a year starts on 1 March, so the leap day is
    the last day of its year; an era splits into four centuries of 36524
    days (the last one has 36525), a century into 25 blocks of 1461 days
    (the last block of the first three centuries has 1460) and a block into
    four years of 365 days (the last one has 366 in a leap block). */
module Civil {
  import opened Arith


  datatype Date = Date(year: int, month: int, day: int)

  datatype DateTime = DateTime(year: int, month: int, day: int, hour: int, minute: int, second: int)
  {
    function DateOf(): Date {
      Date(year, month, day)
    }
  }

  /** Days from 0000-03-01 to 1970-01-01. */
  const EpochShift := 719468

  const SecondsPerDay := 86400

  predicate IsLeap(year: int) {
    year % 4 == 0 && (year % 100 != 0 || year % 400 == 0)
  }

  /** Number of days of a month (1 = January) in a given year. */
  function DaysIn(month: int, year: int): (n: int)
    requires 1 <= month <= 12
    ensures 28 <= n <= 31
    ensures n == 29 <==> month == 2 && IsLeap(year)
  {
    if month == 2 then (if IsLeap(year) then 29 else 28)
    else if month == 4 || month == 6 || month == 9 || month == 11 then 30
    else 31
  }

  predicate ValidDate(d: Date) {
    1 <= d.month <= 12 && 1 <= d.day <= DaysIn(d.month, d.year)
  }

  predicate ValidClock(hour: int, minute: int, second: int) {
    0 <= hour < 24 && 0 <= minute < 60 && 0 <= second < 60
  }

  predicate ValidDateTime(t: DateTime) {
    ValidDate(t.DateOf()) && ValidClock(t.hour, t.minute, t.second)
  }

  /** First day of each month of a March-based year, March being month 0. */
  const MonthStarts: seq<int> := [0, 31, 61, 92, 122, 153, 184, 214, 245, 275, 306, 337]

  /** The March-based month holding day `doy` of a March-based year. */
  function MarchMonth(doy: int): (mp: int)
    requires 0 <= doy < 366
    ensures 0 <= mp < 12
    ensures MonthStarts[mp] <= doy
    ensures mp < 11 ==> doy < MonthStarts[mp + 1]
  {
    if doy < 31 then 0 else if doy < 61 then 1 else if doy < 92 then 2
    else if doy < 122 then 3 else if doy < 153 then 4 else if doy < 184 then 5
    else if doy < 214 then 6 else if doy < 245 then 7 else if doy < 275 then 8
    else if doy < 306 then 9 else if doy < 337 then 10 else 11
  }

  function ToMarchMonth(month: int): int
    requires 1 <= month <= 12
  {
    if month >= 3 then month - 3 else month + 9
  }

  function FromMarchMonth(mp: int): int
    requires 0 <= mp < 12
  {
    if mp < 10 then mp + 3 else mp - 9
  }

  /** The months of a March-based year other than February keep their
      calendar lengths, whatever the year. */
  lemma MonthLengths(mp: int, year: int)
    requires 0 <= mp < 11
    ensures MonthStarts[mp + 1] - MonthStarts[mp] == DaysIn(FromMarchMonth(mp), year)
  {
  }

  /** Whether the March-based year `yoe` of an era ends with a leap day,
      i.e. whether the calendar year that holds its January and February is
      a leap year; `yoe` = 100 * c + 4 * q + r within the era. */
  lemma LeapInEra(era: int, c: int, q: int, r: int)
    requires 0 <= c < 4 && 0 <= q < 25 && 0 <= r < 4
    ensures IsLeap(era * 400 + 100 * c + 4 * q + r + 1) <==> r == 3 && (q != 24 || c == 3)
  {
    var y := era * 400 + 100 * c + 4 * q + r + 1;
    if r != 3 {
      ModOfSum(era * 100 + 25 * c + q, 4, r + 1);
    } else if q != 24 {
      ModOfSum(era * 100 + 25 * c + q + 1, 4, 0);
      ModOfSum(era * 4 + c, 100, 4 * (q + 1));
    } else {
      ModOfSum(era * 100 + 25 * c + 25, 4, 0);
      ModOfSum(era * 4 + c + 1, 100, 0);
      ModOfSum(era, 400, 100 * (c + 1));
    }
  }

  /** Days since 1970-01-01 of a civil date. */
  function DaysFromCivil(d: Date): int
    requires 1 <= d.month <= 12
  {
    var y := if d.month <= 2 then d.year - 1 else d.year;
    var era := y / 400;
    var yoe := y % 400;
    var doy := MonthStarts[ToMarchMonth(d.month)] + d.day - 1;
    var doe := 365 * yoe + yoe / 4 - yoe / 100 + doy;
    era * 146097 + doe - EpochShift
  }

  /** The position of day `zz` (counted from 0000-03-01) in the 400-year
      cycle: era, century, four-year block, year of the block and day of the
      March-based year. */
  datatype EraPosition = EraPosition(era: int, c: int, q: int, r: int, doy: int)

  predicate InEra(p: EraPosition) {
    0 <= p.c < 4 && 0 <= p.q < 25 && 0 <= p.r < 4 && 0 <= p.doy < 366
    && (p.doy == 365 ==> p.r == 3 && (p.q != 24 || p.c == 3))
  }

  function DayOf(p: EraPosition): int {
    p.era * 146097 + 36524 * p.c + 1461 * p.q + 365 * p.r + p.doy
  }

  function Locate(zz: int): (p: EraPosition)
    ensures InEra(p) && DayOf(p) == zz
  {
    var era := zz / 146097;
    var doe := zz % 146097;
    var c := if doe / 36524 < 4 then doe / 36524 else 3;
    var doc := doe - 36524 * c;
    var q := doc / 1461;
    var dob := doc % 1461;
    var r := if dob / 365 < 4 then dob / 365 else 3;
    EraPosition(era, c, q, r, dob - 365 * r)
  }

  /** Every day has exactly one position in the cycle. */
  lemma LocateUnique(p: EraPosition)
    requires InEra(p)
    ensures Locate(DayOf(p)) == p
  {
    var zz := DayOf(p);
    var doe := 36524 * p.c + 1461 * p.q + 365 * p.r + p.doy;
    assert 0 <= doe < 146097;
    assert zz / 146097 == p.era && zz % 146097 == doe;
    var doc := 1461 * p.q + 365 * p.r + p.doy;
    assert p.c < 3 ==> doc < 36524;
    assert (if doe / 36524 < 4 then doe / 36524 else 3) == p.c;
    assert doc / 1461 == p.q && doc % 1461 == 365 * p.r + p.doy;
    assert (if (365 * p.r + p.doy) / 365 < 4 then (365 * p.r + p.doy) / 365 else 3) == p.r;
  }

  /** The civil date at a position of the cycle. */
  function DateAt(p: EraPosition): (d: Date)
    requires InEra(p)
    ensures ValidDate(d)
    ensures DaysFromCivil(d) == DayOf(p) - EpochShift
  {
    var mp := MarchMonth(p.doy);
    var month := FromMarchMonth(mp);
    var d := Date(p.era * 400 + 100 * p.c + 4 * p.q + p.r + (if month <= 2 then 1 else 0), month, p.doy - MonthStarts[mp] + 1);
    DaysInMarchYear(p.era, p.c, p.q, p.r, p.doy, mp);
    FromCivilParts(d, p.era, p.c, p.q, p.r, p.doy);
    d
  }

  /** Civil date of a day count since 1970-01-01; the inverse of
      DaysFromCivil, and always a valid date. */
  function CivilFromDays(z: int): (d: Date)
    ensures ValidDate(d)
    ensures DaysFromCivil(d) == z
  {
    DateAt(Locate(z + EpochShift))
  }

  lemma DaysInMarchYear(era: int, c: int, q: int, r: int, doy: int, mp: int)
    requires 0 <= c < 4 && 0 <= q < 25 && 0 <= r < 4 && 0 <= mp < 12
    requires 0 <= doy < 366 && (doy == 365 ==> r == 3 && (q != 24 || c == 3))
    requires MonthStarts[mp] <= doy && (mp < 11 ==> doy < MonthStarts[mp + 1])
    ensures var y := era * 400 + 100 * c + 4 * q + r + (if FromMarchMonth(mp) <= 2 then 1 else 0);
      doy - MonthStarts[mp] + 1 <= DaysIn(FromMarchMonth(mp), y)
  {
    LeapInEra(era, c, q, r);
    if mp < 11 {
      MonthLengths(mp, era * 400 + 100 * c + 4 * q + r + (if FromMarchMonth(mp) <= 2 then 1 else 0));
    }
  }

  /** DaysFromCivil of a date given by its position in an era. */
  lemma FromCivilParts(d: Date, era: int, c: int, q: int, r: int, doy: int)
    requires 1 <= d.month <= 12
    requires 0 <= c < 4 && 0 <= q < 25 && 0 <= r < 4
    requires d.year - (if d.month <= 2 then 1 else 0) == era * 400 + 100 * c + 4 * q + r
    requires doy == MonthStarts[ToMarchMonth(d.month)] + d.day - 1
    ensures DaysFromCivil(d) == era * 146097 + 36524 * c + 1461 * q + 365 * r + doy - EpochShift
  {
    var y := era * 400 + 100 * c + 4 * q + r;
    var yoe := 100 * c + 4 * q + r;
    assert y / 400 == era && y % 400 == yoe;
    assert yoe / 4 == 25 * c + q;
    assert yoe / 100 == c;
  }

  /** The century, block and year of block of a year of an era. */
  lemma SplitYear(yoe: int) returns (c: int, q: int, r: int)
    requires 0 <= yoe < 400
    ensures 0 <= c < 4 && 0 <= q < 25 && 0 <= r < 4 && yoe == 100 * c + 4 * q + r
  {
    c, q, r := yoe / 100, (yoe % 100) / 4, yoe % 4;
  }

  /** The day of a March-based year on which a valid date falls. */
  lemma DayOfMarchYear(d: Date, c: int, q: int, r: int)
    requires ValidDate(d)
    requires 0 <= c < 4 && 0 <= q < 25 && 0 <= r < 4
    requires IsLeap(d.year) && d.month <= 2 ==> r == 3 && (q != 24 || c == 3)
    ensures var doy := MonthStarts[ToMarchMonth(d.month)] + d.day - 1;
      0 <= doy < 366 && (doy == 365 ==> r == 3 && (q != 24 || c == 3))
      && MarchMonth(doy) == ToMarchMonth(d.month)
  {
    var mp := ToMarchMonth(d.month);
    if mp < 11 {
      MonthLengths(mp, d.year);
      assert FromMarchMonth(mp) == d.month;
    }
  }

  /** The position in the cycle of a valid date. */
  lemma PositionOf(d: Date) returns (p: EraPosition)
    requires ValidDate(d)
    ensures InEra(p) && DateAt(p) == d
    ensures DayOf(p) == DaysFromCivil(d) + EpochShift
  {
    var y := if d.month <= 2 then d.year - 1 else d.year;
    var era := y / 400;
    var c, q, r := SplitYear(y % 400);
    assert y == era * 400 + 100 * c + 4 * q + r;
    var doy := MonthStarts[ToMarchMonth(d.month)] + d.day - 1;
    p := EraPosition(era, c, q, r, doy);
    assert InEra(p) && MarchMonth(doy) == ToMarchMonth(d.month) by {
      LeapInEra(era, c, q, r);
      DayOfMarchYear(d, c, q, r);
    }
    assert DayOf(p) == DaysFromCivil(d) + EpochShift by {
      FromCivilParts(d, era, c, q, r, doy);
    }
  }

  /** The day after a valid date. */
  function NextDay(d: Date): (n: Date)
    requires ValidDate(d)
    ensures ValidDate(n)
  {
    if d.day < DaysIn(d.month, d.year) then Date(d.year, d.month, d.day + 1)
    else if d.month < 12 then Date(d.year, d.month + 1, 1)
    else Date(d.year + 1, 1, 1)
  }

  /** Consecutive dates have consecutive day numbers: together with the
      round trip below, `DaysFromCivil` counts the days of the proleptic
      Gregorian calendar without gaps or repeats. */
  lemma DaysFromCivilNext(d: Date)
    requires ValidDate(d)
    ensures DaysFromCivil(NextDay(d)) == DaysFromCivil(d) + 1
  {
    if d.month == 2 && d.day == DaysIn(2, d.year) {
      MarchFirst(d.year);
    } else {
      if d.day == DaysIn(d.month, d.year) {
        MonthLengths(ToMarchMonth(d.month), d.year);
      }
      SameMarchYear(d, NextDay(d));
    }
  }

  /** Within one March-based year, day numbers differ as days of the year. */
  lemma SameMarchYear(a: Date, b: Date)
    requires 1 <= a.month <= 12 && 1 <= b.month <= 12
    requires a.year - (if a.month <= 2 then 1 else 0) == b.year - (if b.month <= 2 then 1 else 0)
    ensures DaysFromCivil(b) - DaysFromCivil(a) ==
      (MonthStarts[ToMarchMonth(b.month)] + b.day) - (MonthStarts[ToMarchMonth(a.month)] + a.day)
  {
  }

  /** 1 March follows the last day of February, across the start of a
      March-based year. */
  lemma MarchFirst(year: int)
    ensures DaysFromCivil(Date(year, 3, 1)) == DaysFromCivil(Date(year, 2, DaysIn(2, year))) + 1
  {
    var y := year - 1;
    var era, yoe := y / 400, y % 400;
    var c, q, r := SplitYear(yoe);
    LeapInEra(era, c, q, r);
    FromCivilParts(Date(year, 2, DaysIn(2, year)), era, c, q, r, 336 + DaysIn(2, year));
    var march := Date(year, 3, 1);
    if r < 3 {
      FromCivilParts(march, era, c, q, r + 1, 0);
    } else if q < 24 {
      FromCivilParts(march, era, c, q + 1, 0, 0);
    } else if c < 3 {
      FromCivilParts(march, era, c + 1, 0, 0, 0);
    } else {
      FromCivilParts(march, era + 1, 0, 0, 0, 0);
    }
  }

  /** Converting a valid date to days and back gives the date again. */
  lemma CivilDaysRoundTrip(d: Date)
    requires ValidDate(d)
    ensures CivilFromDays(DaysFromCivil(d)) == d
  {
    var p := PositionOf(d);
    LocateUnique(p);
  }

  /** Unix seconds of a civil date and time read as UTC. */
  function SecondsFromCivil(t: DateTime): int
    requires 1 <= t.month <= 12
  {
    DaysFromCivil(t.DateOf()) * SecondsPerDay + t.hour * 3600 + t.minute * 60 + t.second
  }

  /** Civil UTC date and time of a Unix second count; the inverse of
      SecondsFromCivil, and always a valid date and time. */
  function CivilFromSeconds(s: int): (t: DateTime)
    ensures ValidDateTime(t)
    ensures SecondsFromCivil(t) == s
  {
    var days := s / SecondsPerDay;
    var sod := s % SecondsPerDay;
    var d := CivilFromDays(days);
    assert d == DateTime(d.year, d.month, d.day, 0, 0, 0).DateOf();
    SplitDay(sod);
    DateTime(d.year, d.month, d.day, sod / 3600, sod % 3600 / 60, sod % 60)
  }

  /** A second of the day as hours, minutes and seconds. */
  lemma SplitDay(sod: int)
    requires 0 <= sod < SecondsPerDay
    ensures ValidClock(sod / 3600, sod % 3600 / 60, sod % 60)
    ensures sod / 3600 * 3600 + sod % 3600 / 60 * 60 + sod % 60 == sod
  {
    var m := sod % 3600;
    assert sod == sod / 3600 * 3600 + m;
    assert m == m / 60 * 60 + m % 60;
    assert m % 60 == sod % 60;
  }

  /** Converting a valid date and time to seconds and back gives it again. */
  lemma CivilSecondsRoundTrip(t: DateTime)
    requires ValidDateTime(t)
    ensures CivilFromSeconds(SecondsFromCivil(t)) == t
  {
    var days := DaysFromCivil(t.DateOf());
    var sod := t.hour * 3600 + t.minute * 60 + t.second;
    var s := SecondsFromCivil(t);
    assert s == days * SecondsPerDay + sod && 0 <= sod < SecondsPerDay;
    assert s / SecondsPerDay == days && s % SecondsPerDay == sod;
    assert sod / 3600 == t.hour && sod % 3600 / 60 == t.minute && sod % 60 == t.second;
    CivilDaysRoundTrip(t.DateOf());
  }
}
