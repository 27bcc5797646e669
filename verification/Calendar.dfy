/** Calendar arithmetic and the FAT date and time fields (kernel/fs/fat32.c:37-127). Years are unbounded
    here; the program's hold for years that fit its int. */
module Calendar {
  import opened Base

  const EPOCH: int := 1970

  datatype DateTime = DateTime(year: int, month: int, day: int, hour: int, min: int, sec: int)

  predicate IsLeapYear(year: int) {
    (year % 4 == 0 && year % 100 != 0) || year % 400 == 0
  }

  function DaysInYear(year: int): int {
    if IsLeapYear(year) then 366 else 365
  }

  /** days_in_month, with the leap day. */
  function DaysInMonth(year: int, month: int): int
    requires 1 <= month <= 12
  {
    if month == 2 then (if IsLeapYear(year) then 29 else 28)
    else if month == 4 || month == 6 || month == 9 || month == 11 then 30
    else 31
  }

  predicate IsDate(d: DateTime) {
    && d.year >= EPOCH && 1 <= d.month <= 12 && 1 <= d.day <= DaysInMonth(d.year, d.month)
    && 0 <= d.hour < 24 && 0 <= d.min < 60 && 0 <= d.sec < 60
  }

  // ---- what a date is worth ----

  function DaysToYear(year: int): int
    decreases year
    requires year >= EPOCH
  {
    if year == EPOCH then 0 else DaysToYear(year - 1) + DaysInYear(year - 1)
  }

  function DaysToMonth(year: int, month: int): int
    requires 1 <= month <= 13
  {
    if month == 1 then 0 else DaysToMonth(year, month - 1) + DaysInMonth(year, month - 1)
  }

  /** Seconds since the epoch; the day may lie outside the month, as it can in a FAT field. */
  function Seconds(d: DateTime): int
    requires d.year >= EPOCH && 1 <= d.month <= 13
  {
    (DaysToYear(d.year) + DaysToMonth(d.year, d.month) + d.day - 1) * 86400 + d.hour * 3600 + d.min * 60 + d.sec
  }

  /** The days before a year: 365 each, and one more for every fourth, except every hundredth, but not every
      four-hundredth. */
  lemma {:induction false} LeapCount(year: int)
    requires year >= EPOCH
    ensures DaysToYear(year) == 365 * (year - 1970) + (year - 1969) / 4 - (year - 1901) / 100 + (year - 1601) / 400
  {
    if year > EPOCH {
      LeapCount(year - 1);
      LeapStep(year - 1);
    }
  }

  lemma LeapStep(year: int)
    requires year >= EPOCH
    ensures (year - 1968) / 4 - (year - 1900) / 100 + (year - 1600) / 400 ==
      (year - 1969) / 4 - (year - 1901) / 100 + (year - 1601) / 400 + if IsLeapYear(year) then 1 else 0
  {
    Carry(year - 1968, 4);
    Carry(year - 1900, 100);
    Carry(year - 1600, 400);
    SameRest(year);
  }

  lemma SameRest(year: int)
    requires year >= EPOCH
    ensures (year - 1968) % 4 == year % 4 && ((year - 1900) % 100 == 0 <==> year % 100 == 0) && (year - 1600) % 400 == year % 400
    ensures year % 400 == 0 ==> year % 100 == 0
    ensures year % 100 == 0 ==> year % 4 == 0
  {
  }

  lemma Carry(n: int, m: int)
    requires n > 0 && m > 0
    ensures n / m == (n - 1) / m + if n % m == 0 then 1 else 0
  {
    var q, r := n / m, n % m;
    assert n == q * m + r;
    if r == 0 {
      assert n - 1 == (q - 1) * m + (m - 1);
      DivIs(n - 1, m, q - 1, m - 1);
    } else {
      assert n - 1 == q * m + (r - 1);
      DivIs(n - 1, m, q, r - 1);
    }
  }

  lemma DivIs(n: int, m: int, q: int, r: int)
    requires m > 0 && n == q * m + r && 0 <= r < m
    ensures n / m == q
  {
    if n / m < q {
      StepApart(n / m, q, m);
    } else if n / m > q {
      StepApart(q, n / m, m);
    }
  }

  lemma StepApart(a: int, b: int, m: int)
    requires a < b && m > 0
    ensures a * m + m <= b * m
  {
    var k := b - a - 1;
    assert k * m >= 0;
    assert b * m == a * m + m + k * m;
  }

  /** Months take turns in having 31 and 30 days, starting anew in August; the second has what is left of the year. */
  lemma MonthLengths(year: int, month: int)
    requires 1 <= month <= 12
    ensures DaysInMonth(year, month) == if month == 2 then DaysInYear(year) - 337 else 30 + (month + month / 8) % 2
  {
  }

  lemma {:induction false} DaysToYearMono(a: int, b: int)
    requires EPOCH <= a <= b
    ensures DaysToYear(a) + (b - a) * 365 <= DaysToYear(b)
    decreases b - a
  {
    if a < b {
      DaysToYearMono(a, b - 1);
    }
  }

  lemma {:induction false} DaysToMonthMono(year: int, a: int, b: int)
    requires 1 <= a < b <= 13
    ensures DaysToMonth(year, a) + DaysInMonth(year, a) <= DaysToMonth(year, b)
    decreases b - a
  {
    if a < b - 1 {
      DaysToMonthMono(year, a, b - 1);
    }
  }

  lemma MonthsOfYear(year: int)
    ensures DaysToMonth(year, 13) == DaysInYear(year)
  {
    assert DaysToMonth(year, 2) == 31;
    assert DaysToMonth(year, 3) == 31 + DaysInMonth(year, 2);
    assert DaysToMonth(year, 4) == DaysToMonth(year, 3) + 31;
    assert DaysToMonth(year, 5) == DaysToMonth(year, 4) + 30;
    assert DaysToMonth(year, 6) == DaysToMonth(year, 5) + 31;
    assert DaysToMonth(year, 7) == DaysToMonth(year, 6) + 30;
    assert DaysToMonth(year, 8) == DaysToMonth(year, 7) + 31;
    assert DaysToMonth(year, 9) == DaysToMonth(year, 8) + 31;
    assert DaysToMonth(year, 10) == DaysToMonth(year, 9) + 30;
    assert DaysToMonth(year, 11) == DaysToMonth(year, 10) + 31;
    assert DaysToMonth(year, 12) == DaysToMonth(year, 11) + 30;
    assert DaysToMonth(year, 13) == DaysToMonth(year, 12) + 31;
  }

  /** A date falls inside its year. */
  lemma DayOfYear(d: DateTime)
    requires IsDate(d)
    ensures 0 <= DaysToMonth(d.year, d.month) + d.day - 1 < DaysInYear(d.year)
  {
    MonthsOfYear(d.year);
    DaysToMonthMono(d.year, d.month, 13);
    if d.month > 1 {
      DaysToMonthMono(d.year, 1, d.month);
    }
  }

  /** Two dates worth the same are the same. */
  lemma SecondsOneToOne(d: DateTime, e: DateTime)
    requires IsDate(d) && IsDate(e) && Seconds(d) == Seconds(e)
    ensures d == e
  {
    DayOfYear(d);
    DayOfYear(e);
    SameYear(d, e);
    SameMonth(d, e);
  }

  lemma SameDay(a: int, b: int, d: DateTime, e: DateTime)
    requires IsDate(d) && IsDate(e)
    requires a * 86400 + d.hour * 3600 + d.min * 60 + d.sec == b * 86400 + e.hour * 3600 + e.min * 60 + e.sec
    ensures a == b && d.hour == e.hour && d.min == e.min && d.sec == e.sec
  {
  }

  lemma SameYear(d: DateTime, e: DateTime)
    requires IsDate(d) && IsDate(e) && Seconds(d) == Seconds(e)
    ensures d.year == e.year && DaysToMonth(d.year, d.month) + d.day == DaysToMonth(e.year, e.month) + e.day
    ensures d.hour == e.hour && d.min == e.min && d.sec == e.sec
  {
    DayOfYear(d);
    DayOfYear(e);
    SameDay(DaysToYear(d.year) + DaysToMonth(d.year, d.month) + d.day - 1, DaysToYear(e.year) + DaysToMonth(e.year, e.month) + e.day - 1, d, e);
    if d.year < e.year {
      DaysToYearMono(d.year + 1, e.year);
    } else if e.year < d.year {
      DaysToYearMono(e.year + 1, d.year);
    }
  }

  lemma SameMonth(d: DateTime, e: DateTime)
    requires IsDate(d) && IsDate(e) && d.year == e.year
    requires DaysToMonth(d.year, d.month) + d.day == DaysToMonth(e.year, e.month) + e.day
    ensures d.month == e.month && d.day == e.day
  {
    if d.month < e.month {
      DaysToMonthMono(d.year, d.month, e.month);
    } else if e.month < d.month {
      DaysToMonthMono(d.year, e.month, d.month);
    }
  }

  // ---- the two conversions ----

  /** unix_to_datetime: the one date that is worth the timestamp. */
  method UnixToDatetime(timestamp: nat) returns (d: DateTime)
    ensures IsDate(d) && Seconds(d) == timestamp
    ensures forall e :: IsDate(e) && Seconds(e) == timestamp ==> e == d
  {
    var sec, min, hour := timestamp % 60, timestamp / 60 % 60, timestamp / 3600 % 24;
    var rem: int := timestamp / 60 / 60 / 24;
    ghost var days := rem;
    assert timestamp == days * 86400 + hour * 3600 + min * 60 + sec;
    var y := EPOCH;
    while rem >= DaysInYear(y)
      invariant y >= EPOCH && 0 <= rem && DaysToYear(y) + rem == days
      decreases rem
    {
      rem := rem - DaysInYear(y);
      y := y + 1;
    }
    var m := 0;
    MonthsOfYear(y);
    while m < 11
      invariant 0 <= m <= 11 && 0 <= rem && DaysToYear(y) + DaysToMonth(y, m + 1) + rem == days
      invariant DaysToMonth(y, m + 1) + rem < DaysInYear(y)
    {
      if rem < DaysInMonth(y, m + 1) {
        break;
      }
      rem := rem - DaysInMonth(y, m + 1);
      m := m + 1;
    }
    d := DateTime(y, m + 1, rem + 1, hour, min, sec);
    forall e | IsDate(e) && Seconds(e) == timestamp
      ensures e == d
    {
      SecondsOneToOne(e, d);
    }
  }

  /** datetime_to_unix. */
  method DatetimeToUnix(d: DateTime) returns (r: int)
    requires d.year >= EPOCH && 1 <= d.month <= 13
    ensures r == Seconds(d)
  {
    var days := 0;
    for y := EPOCH to d.year
      invariant days == DaysToYear(y)
    {
      days := days + DaysInYear(y);
    }
    ghost var years := days;
    for m := 1 to d.month
      invariant days == years + DaysToMonth(d.year, m)
    {
      days := days + DaysInMonth(d.year, m);
    }
    days := days + d.day - 1;
    r := days * 86400 + d.hour * 3600 + d.min * 60 + d.sec;
  }

  // ---- FAT fields ----

  /** pack_fat_date: 7 bits of year since 1980, 4 of month, 5 of day. */
  function PackDate(year: int, month: int, day: int): nat {
    (year - 1980) % 128 * 512 + month % 16 * 32 + day % 32
  }

  /** pack_fat_time: hours, minutes, and seconds in twos. */
  function PackTime(hour: int, min: int, sec: int): nat
    requires sec >= 0
  {
    hour % 32 * 2048 + min % 64 * 32 + sec / 2 % 32
  }

  /** unpack_fat_date and unpack_fat_time. */
  function Unpack(date: nat, time: nat): DateTime {
    DateTime(date / 512 % 128 + 1980, date / 32 % 16, date % 32, time / 2048 % 32, time / 32 % 64, time % 32 * 2)
  }

  /** fat_to_unix, of a date field that a date was packed into. */
  method FatToUnix(date: nat, time: nat) returns (r: int)
    requires date == 0 || 1 <= date / 32 % 16 <= 13
    ensures r == if date == 0 then 0 else Seconds(Unpack(date, time))
  {
    if date == 0 {
      return 0;
    }
    r := DatetimeToUnix(Unpack(date, time));
  }

  lemma UnpackDate(d: DateTime)
    requires IsDate(d)
    ensures
      var u := Unpack(PackDate(d.year, d.month, d.day), PackTime(d.hour, d.min, d.sec));
      u == d.(year := (d.year - 1980) % 128 + 1980, sec := d.sec / 2 * 2)
  {
    hide PackDate, PackTime, IsDate;
    PackedDate(d);
    PackedTime(d);
  }

  lemma PackedDate(d: DateTime)
    requires IsDate(d)
    ensures var date := PackDate(d.year, d.month, d.day);
      date < 0x10000 && date / 512 % 128 == (d.year - 1980) % 128 && date / 32 % 16 == d.month && date % 32 == d.day
  {
    hide IsLeapYear;
    DateFields((d.year - 1980) % 128, d.month, d.day);
    assert d.month % 16 == d.month && d.day % 32 == d.day;
  }

  lemma PackedTime(d: DateTime)
    requires IsDate(d)
    ensures var time := PackTime(d.hour, d.min, d.sec);
      time < 0x10000 && time / 2048 % 32 == d.hour && time / 32 % 64 == d.min && time % 32 == d.sec / 2
  {
    hide DaysInMonth;
    TimeFields(d.hour, d.min, d.sec / 2);
    assert d.hour % 32 == d.hour && d.min % 64 == d.min && d.sec / 2 % 32 == d.sec / 2;
  }

  lemma DateFields(y: int, m: int, d: int)
    requires 0 <= y < 128 && 0 <= m < 16 && 0 <= d < 32
    ensures var word := y * 512 + m * 32 + d;
      word < 0x10000 && word / 512 % 128 == y && word / 32 % 16 == m && word % 32 == d
  {
    var word := y * 512 + m * 32 + d;
    assert word / 32 == y * 16 + m;
  }

  lemma TimeFields(h: int, m: int, s: int)
    requires 0 <= h < 32 && 0 <= m < 64 && 0 <= s < 32
    ensures var word := h * 2048 + m * 32 + s;
      word < 0x10000 && word / 2048 % 32 == h && word / 32 % 64 == m && word % 32 == s
  {
    var word := h * 2048 + m * 32 + s;
    assert word / 32 == h * 64 + m;
  }

  /** A date that went through the FAT fields comes back with its second rounded down to even, exactly
      if its year is from 1980 to 2107. */
  lemma FatRoundTrip(d: DateTime)
    requires IsDate(d)
    ensures
      var date, time := PackDate(d.year, d.month, d.day), PackTime(d.hour, d.min, d.sec);
      && date != 0 && date < 0x10000 && time < 0x10000 && 1 <= date / 32 % 16 <= 12
      && (Seconds(Unpack(date, time)) == Seconds(d) - d.sec % 2 <==> 1980 <= d.year <= 2107)
  {
    hide Seconds, Unpack, IsLeapYear, PackDate, PackTime;
    UnpackDate(d);
    PackedDate(d);
    PackedTime(d);
    YearWindow(d.year);
    EvenSeconds(d, (d.year - 1980) % 128 + 1980);
  }

  lemma YearWindow(year: int)
    ensures (year - 1980) % 128 + 1980 == year <==> 1980 <= year <= 2107
  {
  }

  lemma EvenSeconds(d: DateTime, year: int)
    requires IsDate(d) && year >= EPOCH
    ensures Seconds(d.(year := year, sec := d.sec / 2 * 2)) == Seconds(d) - d.sec % 2 <==> year == d.year
  {
    hide DaysToYear, DaysToMonth, IsLeapYear;
    if d.year < year {
      OtherYear(d, year);
    } else if year < d.year {
      OtherYear(d.(year := year), d.year);
    }
  }

  /** The same day of a later year is later. */
  lemma OtherYear(d: DateTime, year: int)
    requires EPOCH <= d.year < year && 1 <= d.month <= 12
    ensures Seconds(d) + 86400 <= Seconds(d.(year := year))
  {
    DaysToYearMono(d.year, year);
    MonthsDiffer(d.year, year, d.month);
  }

  lemma {:induction false} MonthsDiffer(a: int, b: int, month: int)
    requires 1 <= month <= 13
    ensures DaysToMonth(a, month) <= DaysToMonth(b, month) + 1
    ensures month <= 2 ==> DaysToMonth(a, month) == DaysToMonth(b, month)
  {
    if month > 1 {
      MonthsDiffer(a, b, month - 1);
    }
  }
}
