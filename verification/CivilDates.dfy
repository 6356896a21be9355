/** Civil dates as day numbers: the arithmetic of source/api/livetv.cpp, against the Gregorian calendar. */
module CivilDates {
  import opened Basics

  /** Division as C divides: towards zero. */
  function CDiv(a: int, b: int): int
    requires b > 0
  {
    if a >= 0 then a / b else -((-a) / b)
  }

  // ---- the calendar ---------------------------------------------------------------------------------------

  datatype Date = Date(y: int, m: int, d: int)

  predicate IsLeap(y: int) { y % 4 == 0 && (y % 100 != 0 || y % 400 == 0) }

  function DaysInMonth(y: int, m: int): int {
    if m == 2 then (if IsLeap(y) then 29 else 28) else if m == 4 || m == 6 || m == 9 || m == 11 then 30 else 31
  }

  predicate IsDate(t: Date) { 1 <= t.m <= 12 && 1 <= t.d <= DaysInMonth(t.y, t.m) }

  /** The day after, in the Gregorian calendar. */
  function NextDay(t: Date): Date {
    if t.d < DaysInMonth(t.y, t.m) then Date(t.y, t.m, t.d + 1)
    else if t.m < 12 then Date(t.y, t.m + 1, 1)
    else Date(t.y + 1, 1, 1)
  }

  predicate Before(a: Date, b: Date) {
    a.y < b.y || (a.y == b.y && (a.m < b.m || (a.m == b.m && a.d < b.d)))
  }

  // ---- the program's arithmetic -----------------------------------------------------------------------------

  function DayOfYear(m: int, d: int): int { (153 * (m + (if m > 2 then -3 else 9)) + 2) / 5 + d - 1 }

  function DayOfEra(yoe: int, doy: int): int { yoe * 365 + yoe / 4 - yoe / 100 + doy }

  function DaysFromCivil(t: Date): int {
    var y := t.y - (if t.m <= 2 then 1 else 0);
    var era := CDiv(if y >= 0 then y else y - 399, 400);
    era * 146097 + DayOfEra(y - era * 400, DayOfYear(t.m, t.d)) - 719468
  }

  function YearOfEra(doe: int): int { (doe - doe / 1460 + doe / 36524 - doe / 146096) / 365 }

  function CivilFromDays(z0: int): Date {
    var z := z0 + 719468;
    var era := CDiv(if z >= 0 then z else z - 146096, 146097);
    var doe := z - era * 146097;
    var yoe := YearOfEra(doe);
    var doy := doe - (365 * yoe + yoe / 4 - yoe / 100);
    var mp := (5 * doy + 2) / 153;
    var m := mp + (if mp < 10 then 3 else -9);
    Date(yoe + era * 400 + (if m <= 2 then 1 else 0), m, doy - (153 * mp + 2) / 5 + 1)
  }

  // ---- eras ----------------------------------------------------------------------------------------------------

  /** The program's rounding rounds down. */
  lemma RoundsDown(x: int, n: int)
    requires n > 0
    ensures CDiv(if x >= 0 then x else x - (n - 1), n) == x / n
  {
    if x < 0 {
      var q := (-x + (n - 1)) / n;
      FloorOfNegative(x, n, q);
    }
  }

  lemma FloorOfNegative(x: int, n: int, q: int)
    requires n > 0 && x < 0 && q == (-x + (n - 1)) / n
    ensures x / n == -q
  {
    var a := -x + (n - 1);
    assert a == n * q + a % n;
    var r := x + n * q;
    assert 0 <= r < n;
    UniqueQuotient(x, n, -q, r);
  }

  // ---- within an era: years from the first of March ----------------------------------------------------------------

  /** Whether the year of the era that starts in March of `yoe` ends with a 29th of February. */
  predicate LongYear(yoe: int) { (yoe + 1) % 4 == 0 && ((yoe + 1) % 100 != 0 || yoe == 399) }

  predicate InYear(yoe: int, doy: int) { 0 <= yoe < 400 && 0 <= doy < (if LongYear(yoe) then 366 else 365) }

  lemma YearParts(yoe: int, c: int, q: int, r: int)
    requires 0 <= yoe < 400 && c == yoe / 100 && q == yoe % 100 / 4 && r == yoe % 4
    ensures yoe == 100 * c + 4 * q + r && 0 <= c <= 3 && 0 <= q <= 24 && 0 <= r <= 3
    ensures yoe / 4 == 25 * c + q
    ensures LongYear(yoe) <==> r == 3 && (q != 24 || c == 3)
  {
  }

  lemma DayOfEraParts(yoe: int, doy: int, c: int, q: int, r: int)
    requires InYear(yoe, doy) && c == yoe / 100 && q == yoe % 100 / 4 && r == yoe % 4
    ensures DayOfEra(yoe, doy) == 36524 * c + 1461 * q + 365 * r + doy
  {
    YearParts(yoe, c, q, r);
  }

  lemma YearOfEraIs(yoe: int, doy: int)
    requires InYear(yoe, doy)
    ensures 0 <= DayOfEra(yoe, doy) < 146097 && YearOfEra(DayOfEra(yoe, doy)) == yoe
  {
    var c, q, r := yoe / 100, yoe % 100 / 4, yoe % 4;
    YearParts(yoe, c, q, r);
    DayOfEraParts(yoe, doy, c, q, r);
    YearFromParts(DayOfEra(yoe, doy), doy, c, q, r);
  }

  lemma YearFromParts(doe: int, doy: int, c: int, q: int, r: int)
    requires 0 <= c <= 3 && 0 <= q <= 24 && 0 <= r <= 3
    requires 0 <= doy < (if r == 3 && (q != 24 || c == 3) then 366 else 365)
    requires doe == 36524 * c + 1461 * q + 365 * r + doy
    ensures 0 <= doe < 146097 && YearOfEra(doe) == 100 * c + 4 * q + r
  {
    var t := 24 * c + q + 365 * r + doy;
    var f := t / 1460;
    LeapDays(t, c, q, r, doy);
    UniqueQuotient(doe, 1460, 25 * c + q + f, t % 1460);
    Centuries(doe, 36524 * c, c, 1461 * q + 365 * r + doy);
    UniqueQuotient(doe - doe / 1460 + c, 365, 100 * c + 4 * q + r, doy - f);
  }

  /** The days that fours of years are longer than 1460 days come to at most one more. */
  lemma LeapDays(t: int, c: int, q: int, r: int, doy: int)
    requires 0 <= c <= 3 && 0 <= q <= 24 && 0 <= r <= 3 && t == 24 * c + q + 365 * r + doy
    requires 0 <= doy < (if r == 3 && (q != 24 || c == 3) then 366 else 365)
    ensures 0 <= t / 1460 <= doy && doy - t / 1460 < 365 && t == 1460 * (t / 1460) + t % 1460
  {
  }

  lemma Centuries(doe: int, before: int, c: int, x: int)
    requires 0 <= c <= 3 && before == 36524 * c && doe == before + x && 0 <= x <= (if c == 3 then 36524 else 36523)
    ensures doe / 36524 - doe / 146096 == c
  {
  }

  // ---- within a year ------------------------------------------------------------------------------------------------

  /** Months from March on; February is the last. */
  function MonthLength(mp: int): int {
    if mp == 11 then 29 else if mp == 1 || mp == 3 || mp == 6 || mp == 8 then 30 else 31
  }

  lemma MonthOfDay(mp: int, d: int)
    requires 0 <= mp <= 11 && 1 <= d <= MonthLength(mp)
    ensures var doy := (153 * mp + 2) / 5 + d - 1;
            0 <= doy < 366 && (5 * doy + 2) / 153 == mp && (mp == 11 && d == 29 <==> doy == 365)
  {
  }

  lemma DayOfMonth(doy: int)
    requires 0 <= doy < 366
    ensures var mp := (5 * doy + 2) / 153;
            var d := doy - (153 * mp + 2) / 5 + 1;
            0 <= mp <= 11 && 1 <= d <= MonthLength(mp) && (mp == 11 && d == 29 <==> doy == 365)
  {
  }

  // ---- dates and day numbers --------------------------------------------------------------------------------------

  /** The year a date is in when years start in March. */
  function MarchYear(t: Date): int { t.y - (if t.m <= 2 then 1 else 0) }

  function MarchMonth(m: int): int { m + (if m > 2 then -3 else 9) }

  lemma LeapInEra(y: int)
    ensures LongYear(y % 400) <==> IsLeap(y + 1)
  {
    var e, k := y / 400, y % 400;
    assert y == 400 * e + k;
    ModOfMultiple(k + 1, 4, 100 * e);
    ModOfMultiple(k + 1, 100, 4 * e);
    ModOfMultiple(k + 1, 400, e);
    assert (y + 1) % 4 == (k + 1) % 4 && (y + 1) % 100 == (k + 1) % 100 && (y + 1) % 400 == (k + 1) % 400;
  }

  lemma ModOfMultiple(a: int, n: int, e: int)
    requires n > 0
    ensures (n * e + a) % n == a % n
  {
    UniqueQuotient(n * e + a, n, e + a / n, a % n);
    assert a == n * (a / n) + a % n;
    assert n * (e + a / n) == n * e + n * (a / n);
  }

  /** A valid date in the program's terms. */
  lemma InMarchTerms(t: Date)
    requires IsDate(t)
    ensures var y := MarchYear(t);
            && InYear(y % 400, DayOfYear(t.m, t.d))
            && DaysFromCivil(t) == y / 400 * 146097 + DayOfEra(y % 400, DayOfYear(t.m, t.d)) - 719468
  {
    var y := MarchYear(t);
    RoundsDown(y, 400);
    LeapInEra(y);
    MonthOfDay(MarchMonth(t.m), t.d);
  }

  /** The date of a day of a year of an era. */
  lemma CivilOf(era: int, yoe: int, doy: int)
    requires InYear(yoe, doy)
    ensures var mp := (5 * doy + 2) / 153;
            var m := mp + (if mp < 10 then 3 else -9);
            CivilFromDays(era * 146097 + DayOfEra(yoe, doy) - 719468)
            == Date(yoe + era * 400 + (if m <= 2 then 1 else 0), m, doy - (153 * mp + 2) / 5 + 1)
  {
    hide *;
    var doe := DayOfEra(yoe, doy);
    DayIs(yoe, doy);
    YearOfEraIs(yoe, doy);
    UniqueQuotient(era * 146097 + doe, 146097, era, doe);
    CivilInEra(era * 146097 + doe - 719468, era, doe);
  }

  lemma DayIs(yoe: int, doy: int)
    ensures DayOfEra(yoe, doy) - (365 * yoe + yoe / 4 - yoe / 100) == doy
  {
  }

  lemma CivilInEra(z: int, era: int, doe: int)
    requires (z + 719468) / 146097 == era && z + 719468 == era * 146097 + doe
    ensures var yoe := YearOfEra(doe);
            var doy := doe - (365 * yoe + yoe / 4 - yoe / 100);
            var mp := (5 * doy + 2) / 153;
            var m := mp + (if mp < 10 then 3 else -9);
            CivilFromDays(z) == Date(yoe + era * 400 + (if m <= 2 then 1 else 0), m, doy - (153 * mp + 2) / 5 + 1)
  {
    hide YearOfEra, CDiv;
    RoundsDown(z + 719468, 146097);
  }

  /** Every valid date, before the epoch too, is the date of its day number. */
  lemma DatesComeBack(t: Date)
    requires IsDate(t)
    ensures CivilFromDays(DaysFromCivil(t)) == t
  {
    hide DaysFromCivil, CivilFromDays;
    InMarchTerms(t);
    var y := MarchYear(t);
    CivilOf(y / 400, y % 400, DayOfYear(t.m, t.d));
    MonthOfDay(MarchMonth(t.m), t.d);
  }

  lemma DayOfEraOnto(doe: int)
    requires 0 <= doe < 146097
    ensures var yoe := YearOfEra(doe); InYear(yoe, doe - DayOfEra(yoe, 0))
  {
    var c := if doe == 146096 then 3 else doe / 36524;
    var x := doe - 36524 * c;
    var q := x / 1461;
    var y := x - 1461 * q;
    var r := if y == 1460 then 3 else y / 365;
    hide YearOfEra, DayOfEra, InYear;
    InCentury(doe, c, x);
    InFourYears(x, q, y, c);
    InOneYear(y, r, q, c);
    YearOfParts(doe, y - 365 * r, c, q, r);
  }

  lemma InCentury(doe: int, c: int, x: int)
    requires 0 <= doe < 146097 && c == (if doe == 146096 then 3 else doe / 36524) && x == doe - 36524 * c
    ensures 0 <= c <= 3 && 0 <= x <= (if c == 3 then 36524 else 36523)
  {
  }

  lemma InFourYears(x: int, q: int, y: int, c: int)
    requires 0 <= x <= (if c == 3 then 36524 else 36523) && q == x / 1461 && y == x - 1461 * q
    ensures 0 <= q <= 24 && 0 <= y <= (if q == 24 && c != 3 then 1459 else 1460)
  {
  }

  lemma InOneYear(y: int, r: int, q: int, c: int)
    requires 0 <= y <= (if q == 24 && c != 3 then 1459 else 1460) && r == (if y == 1460 then 3 else y / 365)
    ensures 0 <= r <= 3 && 0 <= y - 365 * r < (if r == 3 && (q != 24 || c == 3) then 366 else 365)
  {
  }

  /** The day of the era that is day `doy` of year r of the q-th four of century c. */
  lemma YearOfParts(doe: int, doy: int, c: int, q: int, r: int)
    requires 0 <= c <= 3 && 0 <= q <= 24 && 0 <= r <= 3
    requires 0 <= doy < (if r == 3 && (q != 24 || c == 3) then 366 else 365)
    requires doe == 36524 * c + 1461 * q + 365 * r + doy
    ensures var yoe := YearOfEra(doe); InYear(yoe, doe - DayOfEra(yoe, 0))
  {
    hide YearOfEra, DayOfEra;
    var yoe := 100 * c + 4 * q + r;
    YearFromParts(doe, doy, c, q, r);
    PartsOfYear(yoe, c, q, r);
    YearParts(yoe, c, q, r);
    DayOfEraParts(yoe, doy, c, q, r);
    DayFromStart(yoe, doy);
  }

  lemma PartsOfYear(yoe: int, c: int, q: int, r: int)
    requires 0 <= c <= 3 && 0 <= q <= 24 && 0 <= r <= 3 && yoe == 100 * c + 4 * q + r
    ensures 0 <= yoe < 400 && c == yoe / 100 && q == yoe % 100 / 4 && r == yoe % 4
  {
    UniqueQuotient(yoe, 100, c, 4 * q + r);
    UniqueQuotient(yoe % 100, 4, q, r);
    UniqueQuotient(yoe, 4, 25 * c + q, r);
  }

  lemma DayFromStart(yoe: int, doy: int)
    ensures DayOfEra(yoe, doy) - DayOfEra(yoe, 0) == doy
  {
  }

  /** Every day number is that of a valid date. */
  lemma DaysComeBack(z: int)
    ensures IsDate(CivilFromDays(z)) && DaysFromCivil(CivilFromDays(z)) == z
  {
    hide *;
    var era, doe := (z + 719468) / 146097, (z + 719468) % 146097;
    DayOfEraOnto(doe);
    var yoe := YearOfEra(doe);
    var doy := doe - DayOfEra(yoe, 0);
    YearOnly(yoe, doy);
    CivilOf(era, yoe, doy);
    var t := CivilFromDays(z);
    CivilIsDate(t, era, yoe, doy);
    InMarchTerms(t);
  }

  lemma YearOnly(yoe: int, doy: int)
    ensures DayOfEra(yoe, doy) == DayOfEra(yoe, 0) + doy
  {
  }

  lemma CivilIsDate(t: Date, era: int, yoe: int, doy: int)
    requires InYear(yoe, doy)
    requires var mp := (5 * doy + 2) / 153;
             var m := mp + (if mp < 10 then 3 else -9);
             t == Date(yoe + era * 400 + (if m <= 2 then 1 else 0), m, doy - (153 * mp + 2) / 5 + 1)
    ensures IsDate(t) && MarchYear(t) / 400 == era && MarchYear(t) % 400 == yoe && DayOfYear(t.m, t.d) == doy
  {
    hide InYear, IsDate, DayOfYear, LongYear, IsLeap;
    assert MarchYear(t) == yoe + era * 400;
    YearInRange(yoe, doy);
    YearBack(era, yoe);
    LeapInEra(MarchYear(t));
    DateOf(t, yoe, doy);
  }

  lemma YearInRange(yoe: int, doy: int)
    requires InYear(yoe, doy)
    ensures 0 <= yoe < 400
  {
  }

  lemma YearBack(era: int, yoe: int)
    requires 0 <= yoe < 400
    ensures (yoe + era * 400) / 400 == era && (yoe + era * 400) % 400 == yoe
  {
    UniqueQuotient(yoe + era * 400, 400, era, yoe);
  }

  lemma DateOf(t: Date, yoe: int, doy: int)
    requires InYear(yoe, doy) && (LongYear(yoe) <==> IsLeap(MarchYear(t) + 1))
    requires var mp := (5 * doy + 2) / 153;
             t.m == mp + (if mp < 10 then 3 else -9) && t.d == doy - (153 * mp + 2) / 5 + 1
    ensures IsDate(t) && DayOfYear(t.m, t.d) == doy
  {
    DayOfMonth(doy);
  }

  /**
   The program's day numbers are the calendar's: the epoch is day 0, and each day is one more than the day before it.
   */
  lemma DaysCountTheCalendar(t: Date)
    requires IsDate(t)
    ensures DaysFromCivil(Date(1970, 1, 1)) == 0
    ensures IsDate(NextDay(t)) && DaysFromCivil(NextDay(t)) == DaysFromCivil(t) + 1
  {
    var n := NextDay(t);
    NextIsDate(t);
    assert DaysFromCivil(Date(1970, 1, 1)) == 0;
    if t.d < DaysInMonth(t.y, t.m) || t.m != 2 {
      NextInYear(t);
      hide *;
      InMarchTerms(t);
      InMarchTerms(n);
      YearOnly(MarchYear(t) % 400, DayOfYear(t.m, t.d));
      YearOnly(MarchYear(t) % 400, DayOfYear(n.m, n.d));
    } else {
      LeapInEra(MarchYear(t));
      assert MarchYear(n) == MarchYear(t) + 1 && DayOfYear(n.m, n.d) == 0;
      assert DayOfYear(t.m, t.d) == if LongYear(MarchYear(t) % 400) then 365 else 364;
      hide *;
      InMarchTerms(t);
      InMarchTerms(n);
      NewMarchYear(MarchYear(t));
    }
  }

  lemma NextIsDate(t: Date)
    requires IsDate(t)
    ensures IsDate(NextDay(t))
  {
  }

  lemma NextInYear(t: Date)
    requires IsDate(t) && (t.d < DaysInMonth(t.y, t.m) || t.m != 2)
    ensures MarchYear(NextDay(t)) == MarchYear(t)
    ensures DayOfYear(NextDay(t).m, NextDay(t).d) == DayOfYear(t.m, t.d) + 1
  {
    if t.d == DaysInMonth(t.y, t.m) {
      NextMonth(t.m);
    }
  }

  lemma NextMonth(m: int)
    requires 1 <= m <= 12 && m != 2
    ensures DayOfYear(if m < 12 then m + 1 else 1, 1) == DayOfYear(m, DaysInMonth(1, m)) + 1
  {
  }

  /** The first of March is the day after the last of February. */
  lemma NewMarchYear(y: int)
    ensures var last := if LongYear(y % 400) then 365 else 364;
            (y + 1) / 400 * 146097 + DayOfEra((y + 1) % 400, 0) == y / 400 * 146097 + DayOfEra(y % 400, last) + 1
  {
    hide *;
    var e, k := y / 400, y % 400;
    if k < 399 {
      UniqueQuotient(y + 1, 400, e, k + 1);
      NextInEra(k);
    } else {
      UniqueQuotient(y + 1, 400, e + 1, 0);
      LastOfEra();
    }
  }

  lemma LastOfEra()
    ensures LongYear(399) && DayOfEra(399, 365) == 146096 && DayOfEra(0, 0) == 0
  {
  }

  lemma NextInEra(k: int)
    requires 0 <= k < 399
    ensures DayOfEra(k + 1, 0) == DayOfEra(k, if LongYear(k) then 365 else 364) + 1
  {
    var c, q, r, last := k / 100, k % 100 / 4, k % 4, if LongYear(k) then 365 else 364;
    YearParts(k, c, q, r);
    StartOfYear(c, q, r, last);
    if r < 3 {
      StartOfYear(c, q, r + 1, 0);
    } else if q < 24 {
      StartOfYear(c, q + 1, 0, 0);
    } else {
      StartOfYear(c + 1, 0, 0, 0);
    }
  }

  lemma StartOfYear(c: int, q: int, r: int, doy: int)
    requires 0 <= c && 0 <= q <= 24 && 0 <= r <= 3
    ensures DayOfEra(100 * c + 4 * q + r, doy) == 36524 * c + 1461 * q + 365 * r + doy
  {
    assert (100 * c + 4 * q + r) / 4 == 25 * c + q && (100 * c + 4 * q + r) / 100 == c;
  }

  /** Later dates have larger numbers, and the other way round. */
  lemma DaysAreInOrder(a: Date, b: Date)
    requires IsDate(a) && IsDate(b)
    ensures Before(a, b) <==> DaysFromCivil(a) < DaysFromCivil(b)
  {
    if Before(a, b) {
      EarlierIsSmaller(a, b);
    } else if Before(b, a) {
      EarlierIsSmaller(b, a);
    } else {
      assert a == b;
    }
  }

  /** By counting the days from one to the other. */
  lemma {:induction false} EarlierIsSmaller(a: Date, b: Date)
    requires IsDate(a) && IsDate(b) && Before(a, b)
    ensures DaysFromCivil(a) < DaysFromCivil(b)
    decreases b.y - a.y, 12 * (b.y - a.y) + b.m - a.m, 400 * (b.y - a.y) + 32 * (b.m - a.m) + b.d - a.d
  {
    hide DaysFromCivil;
    var n := NextDay(a);
    DaysCountTheCalendar(a);
    if n != b {
      EarlierIsSmaller(n, b);
    }
  }
}
