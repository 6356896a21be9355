/**
 Time stamps of source/api/livetv.cpp: ticks of 100 ns since the year 1 and their ISO 8601 text, in both directions.
 A text ends where a terminator would be read.
 */
module IsoTime {
  import opened Basics
  import opened CivilDates
  import opened Decimals

  const TICKS_PER_SEC := 10_000_000
  const EPOCH_SECS := 62_135_596_800

  // ---- reading -----------------------------------------------------------------------------------------------

  function TwoDigits(s: string, p: nat): Option<nat> {
    if IsDigit(At(s, p)) && IsDigit(At(s, p + 1)) then Some(DigitValue(At(s, p)) * 10 + DigitValue(At(s, p + 1)))
    else None
  }

  /** A fraction of a second of any number of digits, in whole ticks: the first seven digits, filled up with zeros. */
  function FracTicks(d: string): nat
    requires AllDigits(d)
  {
    if |d| >= 7 then Number(d[..7]) else Number(d) * Pow10(7 - |d|)
  }

  datatype Stamp = Stamp(date: Date, h: nat, mi: nat, sec: nat)

  /** The nineteen characters of a date and a time of day. */
  function ReadStamp(s: string): Option<Stamp> {
    if !(IsDigit(At(s, 0)) && IsDigit(At(s, 1)) && IsDigit(At(s, 2)) && IsDigit(At(s, 3))) then None
    else
      ReadBehindYear(s, ((DigitValue(At(s, 0)) * 10 + DigitValue(At(s, 1))) * 10 + DigitValue(At(s, 2))) * 10
                        + DigitValue(At(s, 3)))
  }

  function ReadBehindYear(s: string, y: int): Option<Stamp> {
    var m, d, h, mi, sec := TwoDigits(s, 5), TwoDigits(s, 8), TwoDigits(s, 11), TwoDigits(s, 14), TwoDigits(s, 17);
    if At(s, 4) != '-' || m.None? || At(s, 7) != '-' || d.None? || (At(s, 10) != 'T' && At(s, 10) != ' ') || h.None?
       || At(s, 13) != ':' || mi.None? || At(s, 16) != ':' || sec.None? then None
    else if !(1 <= m.value <= 12 && 1 <= d.value <= 31 && h.value <= 23 && mi.value <= 59 && sec.value <= 60) then None
    else Some(Stamp(Date(y, m.value, d.value), h.value, mi.value, sec.value))
  }

  /** Where the fraction's digits end, if there is a fraction. */
  function FracEnd(s: string): nat { if At(s, 19) == '.' then 20 + DigitRun(s, 20) else 19 }

  function ReadFrac(s: string): nat {
    if At(s, 19) == '.' && DigitRun(s, 20) > 0 then FracTicks(s[20..20 + DigitRun(s, 20)]) else 0
  }

  /** Seconds to add for UTC: none without a sign; none at all if the sign has no hours behind it. */
  function ReadZone(s: string, p: nat): Option<int> {
    if At(s, p) != '+' && At(s, p) != '-' then Some(0)
    else
      var oh := TwoDigits(s, p + 1);
      if oh.None? then None
      else
        var secs := oh.value * 3600 + ReadMinutes(s, p + 3) * 60;
        Some(if At(s, p) == '+' then -secs else secs)
  }

  /** The minutes of a zone, behind a colon or not; none are 0. */
  function ReadMinutes(s: string, p: nat): int {
    var q := if At(s, p) == ':' then p + 1 else p;
    if IsDigit(At(s, q)) && TwoDigits(s, q).Some? then TwoDigits(s, q).value else 0
  }

  function UnixSecs(t: Stamp): int { DaysFromCivil(t.date) * 86400 + t.h * 3600 + t.mi * 60 + t.sec }

  function TicksAt(secs: int, frac: int): int { (secs + EPOCH_SECS) * TICKS_PER_SEC + frac }

  /** The ticks a text denotes; 0 when it is not a time stamp, or one before the year 1. */
  function Ticks(s: string): int {
    match (ReadStamp(s), ReadZone(s, FracEnd(s)))
    case (Some(t), Some(offset)) =>
      if UnixSecs(t) + offset < -EPOCH_SECS then 0 else TicksAt(UnixSecs(t) + offset, ReadFrac(s))
    case _ => 0
  }

  /** The number of the first n characters, if they are digits. */
  function YearSoFar(s: string, n: nat): Option<nat> {
    if n == 0 then Some(0)
    else if YearSoFar(s, n - 1).None? || !IsDigit(At(s, n - 1)) then None
    else Some(YearSoFar(s, n - 1).value * 10 + DigitValue(At(s, n - 1)))
  }

  lemma YearIs(s: string)
    ensures ReadStamp(s) == if YearSoFar(s, 4).None? then None else ReadBehindYear(s, YearSoFar(s, 4).value)
  {
    hide ReadBehindYear, At;
    assert YearSoFar(s, 1) == if IsDigit(At(s, 0)) then Some(DigitValue(At(s, 0))) else None;
    assert YearSoFar(s, 2).Some? <==> IsDigit(At(s, 0)) && IsDigit(At(s, 1));
  }

  lemma YearFails(s: string, n: nat)
    requires n <= 4 && YearSoFar(s, n).None?
    ensures ReadStamp(s).None?
  {
    hide ReadBehindYear, At;
    YearIs(s);
    assert n < 4 ==> YearSoFar(s, n + 1).None?;
    assert n + 1 < 4 ==> YearSoFar(s, n + 2).None?;
    assert n + 2 < 4 ==> YearSoFar(s, n + 3).None?;
  }

  /** The reader's loops: four digits of a year, then the fraction. */
  method ReadTicks(s: string) returns (r: int)
    ensures r == Ticks(s)
  {
    var y: nat := 0;
    for i := 0 to 4
      invariant YearSoFar(s, i) == Some(y)
    {
      if !IsDigit(At(s, i)) {
        YearFails(s, i + 1);
        return 0;
      }
      y := y * 10 + DigitValue(At(s, i));
    }
    YearIs(s);
    var t := ReadBehindYear(s, y);
    if t.None? {
      return 0;
    }
    var frac, p := 0, 19;
    if At(s, 19) == '.' {
      frac, p := ReadFraction(s);
    }
    var offset := ReadZone(s, p);
    if offset.None? {
      return 0;
    }
    var secs := UnixSecs(t.value) + offset.value;
    return if secs < -EPOCH_SECS then 0 else (secs + EPOCH_SECS) * TICKS_PER_SEC + frac;
  }

  /** The fraction behind the point at 19, digit by digit. */
  method ReadFraction(s: string) returns (frac: nat, p: nat)
    requires At(s, 19) == '.'
    ensures frac == ReadFrac(s) && p == FracEnd(s)
  {
    hide Number, ReadFrac;
    frac, p := 0, 20;
    var digits: nat := 0;
    EmptyNumber(s[20..20]);
    while IsDigit(At(s, p))
      invariant 20 <= p <= |s| && DigitRun(s, 20) == p - 20 + DigitRun(s, p)
      invariant (forall i :: 20 <= i < p ==> IsDigit(s[i])) && digits == Min(p - 20, 7)
      invariant AllDigits(s[20..20 + digits])
      invariant frac == Number(s[20..20 + digits])
      decreases |s| - p
    {
      if digits < 7 {
        NumberGrows(s, 20, digits);
        frac := frac * 10 + DigitValue(At(s, p));
        digits := digits + 1;
      }
      p := p + 1;
    }
    var had := digits;
    while digits < 7
      invariant had <= digits <= 7 && frac == Number(s[20..20 + had]) * Pow10(digits - had)
    {
      TenTimes(Number(s[20..20 + had]), Pow10(digits - had));
      frac := frac * 10;
      digits := digits + 1;
    }
    FractionIs(s, p, had);
  }

  lemma NumberGrows(s: string, from: nat, n: nat)
    requires from + n < |s| && AllDigits(s[from..from + n]) && IsDigit(s[from + n])
    ensures AllDigits(s[from..from + n + 1])
    ensures Number(s[from..from + n + 1]) == Number(s[from..from + n]) * 10 + DigitValue(s[from + n])
  {
    assert s[from..from + n + 1][..n] == s[from..from + n];
  }

  /** What the loops of the fraction come to. */
  lemma FractionIs(s: string, p: nat, had: nat)
    requires At(s, 19) == '.' && 20 <= p <= |s| && DigitRun(s, 20) == p - 20 && had == Min(p - 20, 7)
    requires AllDigits(s[20..20 + had])
    ensures ReadFrac(s) == Number(s[20..20 + had]) * Pow10(7 - had) && FracEnd(s) == p
  {
    hide Number, DigitRun;
    assert s[20..p][..had] == s[20..20 + had];
    if p == 20 {
      EmptyNumber(s[20..20]);
    }
  }

  lemma EmptyNumber(d: string)
    requires d == ""
    ensures Number(d) == 0
  {
  }

  lemma TenTimes(a: nat, b: nat)
    ensures a * b * 10 == a * (10 * b)
  {
  }

  // ---- writing ---------------------------------------------------------------------------------------------------

  /** The date and time of day of a number of seconds since the epoch. */
  function StampOf(secs: int): (t: Stamp) {
    var days, rem := secs / 86400, secs % 86400;
    Stamp(CivilFromDays(days), rem / 3600, rem / 60 % 60, rem % 60)
  }

  /** At least w digits, with zeros in front. */
  function Wide(n: nat, w: nat): string { if n < Pow10(w) then Digits(n, w) else Decimal(n) }

  function Text(t: Stamp, sep: char := 'T'): string
    requires t.date.y >= 0 && t.date.m >= 0 && t.date.d >= 0
  {
    Wide(t.date.y, 4) + ("-" + (Wide(t.date.m, 2) + ("-" + (Wide(t.date.d, 2) + ([sep] +
    (Wide(t.h, 2) + (":" + (Wide(t.mi, 2) + (":" + Wide(t.sec, 2))))))))))
  }

  /** The text of a number of ticks, in UTC; none before 1970, or without room for it. */
  function Format(ticks: nat, cap: int): string {
    var secs := ticks / TICKS_PER_SEC - EPOCH_SECS;
    if cap < 29 || secs < 0 then ""
    else
      DaysComeBack(secs / 86400);
      EpochIsFirst(secs / 86400);
      var full := Text(StampOf(secs)) + ("." + (Wide(ticks % TICKS_PER_SEC, 7) + "Z"));
      if |full| < cap then full else full[..cap - 1]
  }

  lemma EpochIsFirst(days: nat)
    ensures CivilFromDays(days).y >= 1970
  {
    hide DaysFromCivil, CivilFromDays;
    DaysComeBack(days);
    var t, e := CivilFromDays(days), Date(1970, 1, 1);
    DaysAreInOrder(t, e);
    DaysCountTheCalendar(e);
  }

  // ---- fractions --------------------------------------------------------------------------------------------------

  lemma {:induction false} Pow10Sum(a: nat, b: nat)
    ensures Pow10(a + b) == Pow10(a) * Pow10(b)
  {
    if a > 0 {
      Pow10Sum(a - 1, b);
      TenTimesLeft(Pow10(a - 1), Pow10(b));
      assert a + b - 1 == a - 1 + b;
    }
  }

  lemma TenTimesLeft(x: nat, y: nat)
    ensures 10 * (x * y) == 10 * x * y
  {
  }

  lemma {:induction false} NumberDrops(d: string, k: nat)
    requires AllDigits(d) && k <= |d|
    ensures AllDigits(d[..k]) && Number(d) / Pow10(|d| - k) == Number(d[..k])
    decreases |d|
  {
    if k == |d| {
      assert d[..k] == d;
    } else {
      var e := d[..|d| - 1];
      NumberDrops(e, k);
      assert e[..k] == d[..k];
      DropDigit(Number(e), DigitValue(d[|d| - 1]), Pow10(|d| - 1 - k));
    }
  }

  lemma DropDigit(n: nat, c: nat, p: nat)
    requires c < 10 && p > 0
    ensures (n * 10 + c) / (10 * p) == n / p
  {
    var q, r := n / p, n % p;
    assert n == p * q + r;
    assert n * 10 + c == 10 * p * q + (10 * r + c);
    UniqueQuotient(n * 10 + c, 10 * p, q, 10 * r + c);
  }

  /** A fraction of any number of digits is read as its value rounded down to 100 ns. */
  lemma FractionsAreFloored(d: string)
    requires AllDigits(d)
    ensures FracTicks(d) == Number(d) * 10_000_000 / Pow10(|d|)
  {
    assert Pow10(7) == TICKS_PER_SEC;
    if |d| >= 7 {
      NumberDrops(d, 7);
      Pow10Sum(7, |d| - 7);
      Cancel(Number(d), Pow10(7), Pow10(|d| - 7));
    } else {
      Pow10Sum(7 - |d|, |d|);
      Exact(Number(d), Pow10(7 - |d|), Pow10(|d|));
    }
  }

  lemma Cancel(n: nat, a: nat, b: nat)
    requires a > 0 && b > 0
    ensures n * a / (a * b) == n / b
  {
    var q, r := n / b, n % b;
    assert n == b * q + r;
    assert n * a == a * b * q + r * a;
    Between(a, r, b);
    UniqueQuotient(n * a, a * b, q, r * a);
  }

  lemma Between(a: nat, r: nat, b: nat)
    requires r < b && a > 0
    ensures 0 <= r * a < a * b
  {
  }

  lemma Exact(n: nat, a: nat, b: nat)
    requires b > 0
    ensures n * (a * b) / b == n * a
  {
    assert n * (a * b) == b * (n * a) + 0;
    UniqueQuotient(n * (a * b), b, n * a, 0);
  }

  // ---- what is written is read back -------------------------------------------------------------------------------

  lemma AtOf(s: string, p: nat, x: string, i: nat)
    requires HasAt(s, p, x) && i < |x|
    ensures At(s, p + i) == x[i]
  {
    assert s[p..p + |x|][i] == x[i];
  }

  lemma TwoDigitsAt(s: string, p: nat, n: nat)
    requires n < 100 && HasAt(s, p, Digits(n, 2))
    ensures TwoDigits(s, p) == Some(n)
  {
    var x := Digits(n, 2);
    var y := Digits(n / 10, 1);
    assert x == y + [DigitChar(n % 10)] && y == Digits(n / 10 / 10, 0) + [DigitChar(n / 10 % 10)];
    assert x[0] == y[0];
    AtOf(s, p, x, 0);
    AtOf(s, p, x, 1);
  }

  lemma FourDigits(n: nat)
    requires n < 10000
    ensures var x := Digits(n, 4);
            && x[3] == DigitChar(n % 10) && x[2] == DigitChar(n / 10 % 10)
            && x[1] == DigitChar(n / 100 % 10) && n / 1000 < 10 && x[0] == DigitChar(n / 1000)
  {
    hide Digits, DigitChar;
    LastDigit(n, 4);
    LastDigit(n / 10, 3);
    LastDigit(n / 100, 2);
    LastDigit(n / 1000, 1);
    Places(n);
  }

  /** A number of four places, from its places. */
  lemma Places(n: nat)
    requires n < 10000
    ensures n / 10 / 10 == n / 100 && n / 100 / 10 == n / 1000 && n / 1000 < 10 && n / 1000 % 10 == n / 1000
    ensures ((n / 1000 * 10 + n / 100 % 10) * 10 + n / 10 % 10) * 10 + n % 10 == n
  {
    assert n == n / 10 * 10 + n % 10;
    assert n / 10 == n / 100 * 10 + n / 10 % 10;
  }

  lemma LastDigit(n: nat, w: nat)
    requires w > 0
    ensures Digits(n, w)[w - 1] == DigitChar(n % 10)
    ensures forall i :: 0 <= i < w - 1 ==> Digits(n, w)[i] == Digits(n / 10, w - 1)[i]
  {
  }

  lemma YearAt(s: string, n: nat)
    requires n < 10000 && HasAt(s, 0, Digits(n, 4))
    ensures forall i :: 0 <= i < 4 ==> IsDigit(At(s, i))
    ensures ((DigitValue(At(s, 0)) * 10 + DigitValue(At(s, 1))) * 10 + DigitValue(At(s, 2))) * 10
            + DigitValue(At(s, 3)) == n
  {
    var x := Digits(n, 4);
    FourDigits(n);
    Places(n);
    hide Digits, HasAt, At, DigitChar, DigitValue, IsDigit;
    AtOf(s, 0, x, 0);
    AtOf(s, 0, x, 1);
    AtOf(s, 0, x, 2);
    AtOf(s, 0, x, 3);
  }

  predicate InRange(t: Stamp) {
    0 <= t.date.y < 10000 && 1 <= t.date.m <= 12 && 1 <= t.date.d <= 31 && t.h <= 23 && t.mi <= 59 && t.sec <= 60
  }

  lemma NarrowIsWide(n: nat)
    ensures n < 100 ==> Wide(n, 2) == Digits(n, 2)
    ensures n < 10000 ==> Wide(n, 4) == Digits(n, 4)
    ensures n < TICKS_PER_SEC ==> Wide(n, 7) == Digits(n, 7)
  {
    assert Pow10(2) == 100 && Pow10(4) == 10000 && Pow10(7) == TICKS_PER_SEC;
  }

  lemma TextIs(t: Stamp, sep: char := 'T')
    requires InRange(t)
    ensures |Text(t, sep)| == 19
    ensures Text(t, sep) == Digits(t.date.y, 4) + ("-" + (Digits(t.date.m, 2) + ("-" + (Digits(t.date.d, 2) + ([sep] +
                       (Digits(t.h, 2) + (":" + (Digits(t.mi, 2) + (":" + Digits(t.sec, 2))))))))))
  {
    hide Wide, Digits;
    NarrowIsWide(t.date.y);
    NarrowIsWide(t.date.m);
    NarrowIsWide(t.date.d);
    NarrowIsWide(t.h);
    NarrowIsWide(t.mi);
    NarrowIsWide(t.sec);
  }

  lemma InRangeIs(t: Stamp)
    requires InRange(t)
    ensures t.date.y >= 0 && t.date.m >= 0 && t.date.d >= 0
  {
  }

  lemma TextParts(s: string, t: Stamp, sep: char)
    requires InRange(t) && HasAt(s, 0, Text(t, sep))
    ensures HasAt(s, 0, Digits(t.date.y, 4)) && HasAt(s, 5, Digits(t.date.m, 2)) && HasAt(s, 8, Digits(t.date.d, 2))
    ensures HasAt(s, 11, Digits(t.h, 2)) && HasAt(s, 14, Digits(t.mi, 2)) && HasAt(s, 17, Digits(t.sec, 2))
    ensures At(s, 4) == '-' && At(s, 7) == '-' && At(s, 10) == sep && At(s, 13) == ':' && At(s, 16) == ':'
  {
    hide *;
    TextIs(t, sep);
    InRangeIs(t);
    var y, m, d := Digits(t.date.y, 4), Digits(t.date.m, 2), Digits(t.date.d, 2);
    var h, mi, c := Digits(t.h, 2), Digits(t.mi, 2), Digits(t.sec, 2);
    Peel(s, 0, y, "-", m + ("-" + (d + ([sep] + (h + (":" + (mi + (":" + c))))))));
    Peel(s, 5, m, "-", d + ([sep] + (h + (":" + (mi + (":" + c))))));
    Peel(s, 8, d, [sep], h + (":" + (mi + (":" + c))));
    Peel(s, 11, h, ":", mi + (":" + c));
    Peel(s, 14, mi, ":", c);
  }

  /** A piece and the one character behind it. */
  lemma Peel(s: string, p: nat, x: string, c: string, rest: string)
    requires |c| == 1 && HasAt(s, p, x + (c + rest))
    ensures HasAt(s, p, x) && At(s, p + |x|) == c[0] && HasAt(s, p + |x| + 1, rest)
  {
    hide HasAt;
    HasParts(s, p, x, c + rest);
    HasParts(s, p + |x|, c, rest);
    AtOf(s, p + |x|, c, 0);
  }

  lemma ReadsText(s: string, t: Stamp, sep: char)
    requires InRange(t) && HasAt(s, 0, Text(t, sep)) && (sep == 'T' || sep == ' ')
    ensures ReadStamp(s) == Some(t)
  {
    hide HasAt, Digits, Text, At, TwoDigits;
    TextParts(s, t, sep);
    YearAt(s, t.date.y);
    TwoDigitsAt(s, 5, t.date.m);
    TwoDigitsAt(s, 8, t.date.d);
    TwoDigitsAt(s, 11, t.h);
    TwoDigitsAt(s, 14, t.mi);
    TwoDigitsAt(s, 17, t.sec);
  }

  // ---- what is no time stamp ------------------------------------------------------------------------------------

  lemma DigitBack(c: char)
    requires IsDigit(c)
    ensures DigitValue(c) < 10 && DigitChar(DigitValue(c)) == c
  {
  }

  lemma IsThere(s: string, p: nat)
    requires IsDigit(At(s, p)) || At(s, p) in {'-', ':', 'T', ' '}
    ensures p < |s| && s[p] == At(s, p)
  {
  }

  lemma TwoDigitsBack(s: string, p: nat)
    requires TwoDigits(s, p).Some?
    ensures TwoDigits(s, p).value < 100 && HasAt(s, p, Digits(TwoDigits(s, p).value, 2))
  {
    var a, b := DigitValue(At(s, p)), DigitValue(At(s, p + 1));
    DigitBack(At(s, p));
    DigitBack(At(s, p + 1));
    IsThere(s, p);
    IsThere(s, p + 1);
    hide Digits, DigitChar, DigitValue, IsDigit;
    LastDigit(a * 10 + b, 2);
    LastDigit(a, 1);
    DivMod(a, 10, b);
    assert Digits(a * 10 + b, 2)[0] == Digits(a, 1)[0];
    assert s[p..p + 2] == Digits(a * 10 + b, 2);
  }

  lemma YearBack(s: string)
    requires IsDigit(At(s, 0)) && IsDigit(At(s, 1)) && IsDigit(At(s, 2)) && IsDigit(At(s, 3))
    ensures var y := ((DigitValue(At(s, 0)) * 10 + DigitValue(At(s, 1))) * 10 + DigitValue(At(s, 2))) * 10
                     + DigitValue(At(s, 3));
            0 <= y < 10000 && HasAt(s, 0, Digits(y, 4))
  {
    var a, b, c, d := DigitValue(At(s, 0)), DigitValue(At(s, 1)), DigitValue(At(s, 2)), DigitValue(At(s, 3));
    var y := ((a * 10 + b) * 10 + c) * 10 + d;
    DigitBack(At(s, 0));
    DigitBack(At(s, 1));
    DigitBack(At(s, 2));
    DigitBack(At(s, 3));
    IsThere(s, 0);
    IsThere(s, 1);
    IsThere(s, 2);
    IsThere(s, 3);
    assert y / 10 == (a * 10 + b) * 10 + c && y / 100 == a * 10 + b && y / 1000 == a;
    assert y % 10 == d && y / 10 % 10 == c && y / 100 % 10 == b;
    FourDigits(y);
    hide Digits, DigitChar, DigitValue, IsDigit;
    assert s[0..4] == Digits(y, 4);
  }

  /** A piece, one character and the rest, put together. */
  lemma Unpeel(s: string, p: nat, x: string, c: string, rest: string)
    requires |c| == 1 && HasAt(s, p, x) && At(s, p + |x|) == c[0] && HasAt(s, p + |x| + 1, rest)
    requires p + |x| < |s|
    ensures HasAt(s, p, x + (c + rest))
  {
    var all := x + (c + rest);
    assert s[p..p + |all|] == s[p..p + |x|] + ([s[p + |x|]] + s[p + |x| + 1..p + |x| + 1 + |rest|]);
  }

  lemma TextBack(s: string, t: Stamp)
    requires ReadStamp(s) == Some(t)
    ensures InRange(t) && (At(s, 10) == 'T' || At(s, 10) == ' ') && HasAt(s, 0, Text(t, At(s, 10)))
  {
    hide HasAt, Digits, DigitValue;
    YearBack(s);
    TwoDigitsBack(s, 5);
    TwoDigitsBack(s, 8);
    TwoDigitsBack(s, 11);
    TwoDigitsBack(s, 14);
    TwoDigitsBack(s, 17);
    IsThere(s, 4);
    IsThere(s, 7);
    IsThere(s, 10);
    IsThere(s, 13);
    IsThere(s, 16);
    assert InRange(t);
    hide At, TwoDigits, IsDigit;
    TextJoins(s, t, At(s, 10));
  }

  lemma TextJoins(s: string, t: Stamp, sep: char)
    requires InRange(t) && |s| > 16
    requires HasAt(s, 0, Digits(t.date.y, 4)) && HasAt(s, 5, Digits(t.date.m, 2)) && HasAt(s, 8, Digits(t.date.d, 2))
    requires HasAt(s, 11, Digits(t.h, 2)) && HasAt(s, 14, Digits(t.mi, 2)) && HasAt(s, 17, Digits(t.sec, 2))
    requires At(s, 4) == '-' && At(s, 7) == '-' && At(s, 10) == sep && At(s, 13) == ':' && At(s, 16) == ':'
    ensures HasAt(s, 0, Text(t, sep))
  {
    hide *;
    TextIs(t, sep);
    InRangeIs(t);
    var y, m, d := Digits(t.date.y, 4), Digits(t.date.m, 2), Digits(t.date.d, 2);
    var h, mi, c := Digits(t.h, 2), Digits(t.mi, 2), Digits(t.sec, 2);
    Unpeel(s, 14, mi, ":", c);
    Unpeel(s, 11, h, ":", mi + (":" + c));
    Unpeel(s, 8, d, [sep], h + (":" + (mi + (":" + c))));
    Unpeel(s, 5, m, "-", d + ([sep] + (h + (":" + (mi + (":" + c))))));
    Unpeel(s, 0, y, "-", m + ("-" + (d + ([sep] + (h + (":" + (mi + (":" + c))))))));
  }

  /** A text starts with a date and a time of day exactly if they are written out at its start, and in range. */
  lemma StampsAreReadExactly(s: string, t: Stamp)
    ensures ReadStamp(s) == Some(t) <==> InRange(t) && (HasAt(s, 0, Text(t, 'T')) || HasAt(s, 0, Text(t, ' ')))
  {
    hide *;
    if ReadStamp(s) == Some(t) {
      TextBack(s, t);
    }
    if InRange(t) {
      InRangeIs(t);
      if HasAt(s, 0, Text(t, 'T')) {
        ReadsText(s, t, 'T');
      } else if HasAt(s, 0, Text(t, ' ')) {
        ReadsText(s, t, ' ');
      }
    }
  }

  // ---- zones and fractions ----------------------------------------------------------------------------------------

  /** A zone as a text may state it: UTC, nothing, or hours with a sign, and minutes or not. */
  datatype Zone = Utc | Unstated | Local(ahead: bool, oh: nat, om: Option<nat>, colon: bool) {
    function Minutes(): nat requires Local? { if om.Some? then om.value else 0 }

    function Offset(): int {
      if !Local? then 0 else if ahead then oh * 3600 + Minutes() * 60 else -(oh * 3600 + Minutes() * 60)
    }

    predicate Valid() { Local? ==> oh < 100 && (om.Some? ==> om.value < 100) }

    function Written(): string {
      match this
      case Utc => "Z"
      case Unstated => ""
      case Local(ahead, oh, om, colon) => (if ahead then "+" else "-") + (Digits(oh, 2) + MinutesText(om, colon))
    }
  }

  function MinutesText(om: Option<nat>, colon: bool): string {
    (if colon then ":" else "") + (if om.Some? then Digits(om.value, 2) else "")
  }

  /** At the end of a text. */
  lemma ReadsZone(s: string, p: nat, z: Zone)
    requires z.Valid() && HasAt(s, p, z.Written()) && |s| == p + |z.Written()|
    ensures ReadZone(s, p) == Some(-z.Offset()) && !IsDigit(At(s, p)) && At(s, p) != '.'
  {
    match z
    case Utc => AtOf(s, p, "Z", 0);
    case Unstated =>
    case Local(ahead, oh, om, colon) =>
      hide *;
      LocalParts(s, p, z);
      TwoDigitsAt(s, p + 1, oh);
      ReadsMinutes(s, p + 3, om, colon);
      LocalIs(s, p, z);
  }

  lemma LocalParts(s: string, p: nat, z: Zone)
    requires z.Local? && z.Valid() && HasAt(s, p, z.Written()) && |s| == p + |z.Written()|
    ensures At(s, p) == (if z.ahead then '+' else '-') && z.oh < 100 && HasAt(s, p + 1, Digits(z.oh, 2))
    ensures HasAt(s, p + 3, MinutesText(z.om, z.colon)) && |s| == p + 3 + |MinutesText(z.om, z.colon)|
    ensures z.om.Some? ==> z.om.value < 100
  {
    hide HasAt, Digits, MinutesText, At;
    var sign := if z.ahead then "+" else "-";
    HasParts(s, p, sign, Digits(z.oh, 2) + MinutesText(z.om, z.colon));
    HasParts(s, p + 1, Digits(z.oh, 2), MinutesText(z.om, z.colon));
    AtOf(s, p, sign, 0);
  }

  lemma LocalIs(s: string, p: nat, z: Zone)
    requires z.Local? && At(s, p) == (if z.ahead then '+' else '-') && TwoDigits(s, p + 1) == Some(z.oh)
    requires ReadMinutes(s, p + 3) == if z.om.Some? then z.om.value else 0
    ensures ReadZone(s, p) == Some(-z.Offset()) && !IsDigit(At(s, p)) && At(s, p) != '.'
  {
    hide At, TwoDigits, ReadMinutes;
  }

  lemma ReadsMinutes(s: string, p: nat, om: Option<nat>, colon: bool)
    requires HasAt(s, p, MinutesText(om, colon)) && |s| == p + |MinutesText(om, colon)| && (om.Some? ==> om.value < 100)
    ensures ReadMinutes(s, p) == if om.Some? then om.value else 0
  {
    hide HasAt, Digits, TwoDigits;
    var c := if colon then ":" else "";
    HasParts(s, p, c, if om.Some? then Digits(om.value, 2) else "");
    if colon {
      AtOf(s, p, c, 0);
    }
    if om.Some? {
      TwoDigitsAt(s, p + |c|, om.value);
      DigitFirst(s, p + |c|, om.value);
    }
  }

  lemma DigitFirst(s: string, p: nat, n: nat)
    requires TwoDigits(s, p) == Some(n)
    ensures IsDigit(At(s, p)) && At(s, p) != ':'
  {
  }

  /** A fraction as a text may state it: none, or a point with any number of digits behind it, even none. */
  function FracText(d: Option<string>): string { if d.Some? then "." + d.value else "" }

  predicate ValidFrac(d: Option<string>) { d.Some? ==> AllDigits(d.value) }

  function FracValue(d: Option<string>): nat
    requires ValidFrac(d)
  {
    if d.Some? then FracTicks(d.value) else 0
  }

  /** The seconds from the start of the year 1 to that of 1970, by the calendar. */
  function YearOneToEpoch(): int { (DaysFromCivil(Date(1970, 1, 1)) - DaysFromCivil(Date(1, 1, 1))) * 86400 }

  /** The ticks from the start of the year 1 to a number of seconds since 1970, and 0 for what is before the year 1. */
  function Denoted(secs: int, frac: nat): int {
    var since := YearOneToEpoch() + secs;
    if since < 0 then 0 else since * 10_000_000 + frac
  }

  lemma DenotedIs(secs: int, frac: nat)
    ensures Denoted(secs, frac) == if secs < -EPOCH_SECS then 0 else TicksAt(secs, frac)
  {
    assert YearOneToEpoch() == EPOCH_SECS;
  }

  /**
   A local date and time, with a T or a blank between them, with a fraction of any length or none and a zone or none, is
   read as the instant it denotes.
   */
  lemma StampsDenoteInstants(t: Stamp, d: Option<string>, z: Zone, sep: char := 'T')
    requires InRange(t) && ValidFrac(d) && z.Valid() && (sep == 'T' || sep == ' ')
    ensures Ticks(Text(t, sep) + (FracText(d) + z.Written())) == Denoted(UnixSecs(t) - z.Offset(), FracValue(d))
  {
    var s := Text(t, sep) + (FracText(d) + z.Written());
    hide *;
    TextLength(t, sep);
    ThreeParts(Text(t, sep), FracText(d), z.Written());
    StampAt(s, t, d, z, sep, 19 + |FracText(d)|);
  }

  lemma StampAt(s: string, t: Stamp, d: Option<string>, z: Zone, sep: char, p: nat)
    requires InRange(t) && ValidFrac(d) && z.Valid() && (sep == 'T' || sep == ' ') && p == 19 + |FracText(d)|
    requires HasAt(s, 0, Text(t, sep)) && HasAt(s, 19, FracText(d)) && HasAt(s, p, z.Written())
    requires |s| == p + |z.Written()|
    ensures Ticks(s) == Denoted(UnixSecs(t) - z.Offset(), FracValue(d))
  {
    hide *;
    ReadsText(s, t, sep);
    ReadsZone(s, p, z);
    ReadsFrac(s, d);
    TicksOfParts(s, t, FracValue(d), -z.Offset());
    assert UnixSecs(t) + -z.Offset() == UnixSecs(t) - z.Offset();
  }

  /** Behind the fraction there is something else. */
  lemma ReadsFrac(s: string, d: Option<string>)
    requires ValidFrac(d) && HasAt(s, 19, FracText(d))
    requires !IsDigit(At(s, 19 + |FracText(d)|)) && At(s, 19 + |FracText(d)|) != '.'
    ensures FracEnd(s) == 19 + |FracText(d)| && ReadFrac(s) == FracValue(d)
  {
    hide HasAt, Number, DigitRun, At, IsDigit, AllDigits;
    if d.Some? {
      HasParts(s, 19, ".", d.value);
      AtOf(s, 19, ".", 0);
      RunOfDigits(s, 20, d.value);
      HasSlice(s, 20, d.value);
      if d.value == "" {
        EmptyNumber(d.value);
      }
    }
  }

  lemma ThreeParts(x: string, f: string, z: string)
    requires |x| == 19
    ensures var s := x + (f + z);
            HasAt(s, 0, x) && HasAt(s, 19, f) && HasAt(s, 19 + |f|, z) && |s| == 19 + |f| + |z|
  {
    var s := x + (f + z);
    HasWhole(s);
    hide HasAt;
    HasParts(s, 0, x, f + z);
    HasParts(s, 19, f, z);
  }

  lemma TextLength(t: Stamp, sep: char)
    requires InRange(t)
    ensures |Text(t, sep)| == 19
  {
    hide Text;
    TextIs(t, sep);
  }

  lemma HasWhole(s: string)
    ensures HasAt(s, 0, s)
  {
  }

  lemma TicksOfParts(s: string, t: Stamp, frac: nat, offset: int)
    requires ReadStamp(s) == Some(t) && ReadZone(s, FracEnd(s)) == Some(offset) && ReadFrac(s) == frac
    ensures Ticks(s) == Denoted(UnixSecs(t) + offset, frac)
  {
    hide ReadStamp, ReadZone, UnixSecs, ReadFrac, FracEnd, TicksAt, Denoted;
    DenotedIs(UnixSecs(t) + offset, frac);
  }

  lemma StampBack(secs: int)
    ensures UnixSecs(StampOf(secs)) == secs
    ensures 0 <= StampOf(secs).date.y < 10000 ==> InRange(StampOf(secs))
  {
    hide DaysFromCivil, CivilFromDays;
    DaysComeBack(secs / 86400);
    var r := secs % 86400;
    assert r == r / 3600 * 3600 + r / 60 % 60 * 60 + r % 60;
  }

  /** The last tick of the year 9999 in UTC. */
  lemma YearIsShort(secs: int)
    requires 0 <= secs < DaysFromCivil(Date(10000, 1, 1)) * 86400
    ensures 1970 <= StampOf(secs).date.y < 10000
  {
    var e := Date(10000, 1, 1);
    hide DaysFromCivil, CivilFromDays;
    DaysComeBack(secs / 86400);
    EpochIsFirst(secs / 86400);
    DaysAreInOrder(CivilFromDays(secs / 86400), e);
  }

  /** Seconds since the epoch, and what is left of a second. */
  function SecsOf(ticks: nat): int { ticks / TICKS_PER_SEC - EPOCH_SECS }

  function FracOf(ticks: nat): nat { ticks % TICKS_PER_SEC }

  lemma TicksAre(ticks: nat)
    ensures TicksAt(SecsOf(ticks), FracOf(ticks)) == ticks
    ensures FracOf(ticks) < TICKS_PER_SEC && SecsOf(ticks) >= -EPOCH_SECS
  {
  }

  /** The text of a time in a zone, to the tick. */
  function TextIn(local: Stamp, ticks: nat, z: Zone): string
    requires InRange(local)
  {
    Text(local) + (FracText(Some(Digits(FracOf(ticks), 7))) + z.Written())
  }

  /** An explicit zone denotes the same instant as the text in UTC. */
  lemma ZonesDenoteTheSameInstant(ticks: nat, z: Zone, local: Stamp)
    requires z.Valid() && local == StampOf(SecsOf(ticks) + z.Offset()) && 0 <= local.date.y < 10000
    ensures InRange(local) && Ticks(TextIn(local, ticks, z)) == ticks
  {
    hide *;
    TicksAre(ticks);
    StampBack(SecsOf(ticks) + z.Offset());
    SevenDigits(FracOf(ticks));
    TextInIs(local, ticks, z);
    StampsDenoteInstants(local, Some(Digits(FracOf(ticks), 7)), z);
  }

  lemma TextInIs(local: Stamp, ticks: nat, z: Zone)
    requires InRange(local)
    ensures TextIn(local, ticks, z) == Text(local) + (FracText(Some(Digits(FracOf(ticks), 7))) + z.Written())
    ensures var d := Some(Digits(FracOf(ticks), 7));
            AllDigits(d.value) ==> ValidFrac(d) && FracValue(d) == FracTicks(d.value)
    ensures forall secs, frac: nat :: secs >= -EPOCH_SECS ==> Denoted(secs, frac) == TicksAt(secs, frac)
  {
    forall secs, frac: nat
      ensures secs >= -EPOCH_SECS ==> Denoted(secs, frac) == TicksAt(secs, frac)
    {
      DenotedIs(secs, frac);
    }
  }

  lemma SevenDigits(frac: nat)
    requires frac < TICKS_PER_SEC
    ensures Digits(frac, 7) != "" && AllDigits(Digits(frac, 7)) && FracTicks(Digits(frac, 7)) == frac
  {
    assert Pow10(7) == TICKS_PER_SEC;
    DigitsNumber(frac, 7);
    assert Digits(frac, 7)[..7] == Digits(frac, 7);
  }

  /** From 1970 through the year 9999, what is written is read back, to the tick. */
  lemma TicksRoundTrip(ticks: nat, cap: int)
    requires cap >= 29 && 0 <= SecsOf(ticks) < DaysFromCivil(Date(10000, 1, 1)) * 86400
    ensures |Format(ticks, cap)| == 28 && Ticks(Format(ticks, cap)) == ticks
  {
    hide *;
    var t := StampOf(SecsOf(ticks));
    YearIsShort(SecsOf(ticks));
    UtcIsZero(SecsOf(ticks));
    ZonesDenoteTheSameInstant(ticks, Utc, t);
    FormatIs(ticks, cap, t);
  }

  lemma UtcIsZero(secs: int)
    ensures Utc.Valid() && secs + Utc.Offset() == secs && Utc.Written() == "Z"
  {
  }

  lemma FormatIs(ticks: nat, cap: int, t: Stamp)
    requires cap >= 29 && SecsOf(ticks) >= 0 && t == StampOf(SecsOf(ticks)) && InRange(t)
    ensures |Format(ticks, cap)| == 28 && Format(ticks, cap) == TextIn(t, ticks, Utc)
  {
    hide Digits, Text, Wide, CivilFromDays, DaysFromCivil, InRange;
    var secs := SecsOf(ticks);
    TextIs(t);
    NarrowIsWide(ticks % TICKS_PER_SEC);
    DaysComeBack(secs / 86400);
    EpochIsFirst(secs / 86400);
  }

  /** Outside that range nothing is written before 1970. */
  lemma NothingBeforeTheEpoch(ticks: nat, cap: int)
    ensures Format(ticks, cap) == "" <==> cap < 29 || ticks < YearOneToEpoch() * 10_000_000
  {
    var secs := ticks / TICKS_PER_SEC - EPOCH_SECS;
    assert YearOneToEpoch() == EPOCH_SECS;
    if cap >= 29 && secs >= 0 {
      DaysComeBack(secs / 86400);
      EpochIsFirst(secs / 86400);
    }
  }
}
