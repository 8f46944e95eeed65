/**
 Timestamps as text. Stores compare and sort the strings `format_datetime` writes; these are ISO 8601 in
 UTC, with six fraction digits or, when the microseconds are zero, none at all.
 */
module Temporal {
  import opened Sequences
  import opened Decimals

  datatype Moment = Moment(year: nat, month: nat, day: nat, hour: nat, minute: nat, second: nat, micro: nat)

  predicate IsLeap(y: nat) { y % 4 == 0 && (y % 100 != 0 || y % 400 == 0) }

  function DaysInMonth(y: nat, m: nat): nat
    requires 1 <= m <= 12
  {
    if m == 2 then (if IsLeap(y) then 29 else 28)
    else if m in {4, 6, 9, 11} then 30
    else 31
  }

  predicate Valid(t: Moment) {
    && 1 <= t.year <= 9999 && 1 <= t.month <= 12 && 1 <= t.day <= DaysInMonth(t.year, t.month)
    && t.hour < 24 && t.minute < 60 && t.second < 60 && t.micro < 1_000_000
  }

  function DaysBeforeYear(y: nat): int
    requires y >= 1
  {
    (y - 1) * 365 + (y - 1) / 4 - (y - 1) / 100 + (y - 1) / 400
  }

  function DaysBeforeMonth(y: nat, m: nat): nat
    requires 1 <= m <= 13
  {
    if m == 1 then 0 else DaysBeforeMonth(y, m - 1) + DaysInMonth(y, m - 1)
  }

  /** The proleptic Gregorian day number; 1 January of year 1 is day 1. */
  function DayNumber(t: Moment): int
    requires Valid(t)
  {
    DaysBeforeYear(t.year) + DaysBeforeMonth(t.year, t.month) + t.day
  }

  /** Microseconds on the time line of a clock that reads t. */
  function ClockTime(t: Moment): int
    requires Valid(t)
  {
    (((DayNumber(t) * 24 + t.hour) * 60 + t.minute) * 60 + t.second) * 1_000_000 + t.micro
  }

  /** A datetime: clock fields, and an offset from UTC in microseconds unless it is naive. */
  datatype DateTime = DateTime(clock: Moment, offset: Option<int>)

  /** The instant a datetime denotes; naive ones are read as UTC. */
  function Instant(d: DateTime): int
    requires Valid(d.clock)
  {
    ClockTime(d.clock) - d.offset.GetOr(0, (o: int) => o)
  }

  /** u is the UTC clock `ensure_utc` shows for d: the same instant. */
  predicate EnsuredUtc(d: DateTime, u: Moment) {
    Valid(d.clock) && Valid(u) && (if d.offset.None? then u == d.clock else ClockTime(u) == Instant(d))
  }

  // ---- the text ----

  function Fraction(t: Moment): string
    requires Valid(t)
  {
    Pow6();
    if t.micro == 0 then "" else "." + Padded(6, t.micro)
  }

  lemma Pow6()
    ensures Pow10(2) == 100 && Pow10(4) == 10_000 && Pow10(6) == 1_000_000
  {
    assert Pow10(1) == 10 && Pow10(3) == 1000 && Pow10(5) == 100_000;
  }

  function SecondOn(t: Moment): string
    requires Valid(t)
  {
    Pow6();
    Padded(2, t.second) + ("" + (Fraction(t) + "+00:00"))
  }

  function MinuteOn(t: Moment): string
    requires Valid(t)
  {
    Pow6();
    Padded(2, t.minute) + (":" + SecondOn(t))
  }

  function HourOn(t: Moment): string
    requires Valid(t)
  {
    Pow6();
    Padded(2, t.hour) + (":" + MinuteOn(t))
  }

  function DayOn(t: Moment): string
    requires Valid(t)
  {
    Pow6();
    Padded(2, t.day) + ("T" + HourOn(t))
  }

  function MonthOn(t: Moment): string
    requires Valid(t)
  {
    Pow6();
    Padded(2, t.month) + ("-" + DayOn(t))
  }

  /** `isoformat` of a UTC datetime. */
  function IsoFormat(t: Moment): string
    requires Valid(t)
  {
    Pow6();
    Padded(4, t.year) + ("-" + MonthOn(t))
  }

  // ---- what the text says ----

  /** The text between two positions is a numeral for n. */
  predicate Says(text: string, from: nat, to: nat, n: nat) {
    from <= to <= |text| && AllDigits(text[from..to]) && ParseNat(text[from..to]) == n
  }

  /** Year, month, day, hour, minute and second stand at fixed places, the microseconds only if there are any. */
  predicate Spells(text: string, t: Moment) {
    && |text| == (if t.micro == 0 then 25 else 32)
    && Says(text, 0, 4, t.year) && text[4] == '-' && Says(text, 5, 7, t.month) && text[7] == '-'
    && Says(text, 8, 10, t.day) && text[10] == 'T' && Says(text, 11, 13, t.hour) && text[13] == ':'
    && Says(text, 14, 16, t.minute) && text[16] == ':' && Says(text, 17, 19, t.second)
    && (t.micro != 0 ==> text[19] == '.' && Says(text, 20, 26, t.micro))
    && text[|text| - 6..] == "+00:00"
  }

  /** One padded field at a known place of a text, and where the rest of the text is. */
  lemma FieldAt(text: string, at: nat, w: nat, n: nat, separator: string, rest: string)
    requires n < Pow10(w) && at <= |text| && text[at..] == Padded(w, n) + (separator + rest)
    ensures Says(text, at, at + w, n)
    ensures at + w + |separator| <= |text| && text[at + w..at + w + |separator|] == separator
    ensures text[at + w + |separator|..] == rest
  {
    PaddedParse(w, n);
    assert text[at..at + w] == text[at..][..w] == Padded(w, n);
    assert text[at + w..] == text[at..][w..] == separator + rest;
    assert text[at + w..at + w + |separator|] == text[at + w..][..|separator|];
    assert text[at + w + |separator|..] == text[at + w..][|separator|..];
  }

  lemma SecondSpelled(text: string, t: Moment)
    requires Valid(t) && |text| >= 17 && text[17..] == SecondOn(t)
    ensures |text| == (if t.micro == 0 then 25 else 32) && Says(text, 17, 19, t.second)
    ensures t.micro != 0 ==> text[19] == '.' && Says(text, 20, 26, t.micro)
    ensures text[|text| - 6..] == "+00:00"
  {
    Pow6();
    FieldAt(text, 17, 2, t.second, "", Fraction(t) + "+00:00");
    if t.micro != 0 {
      assert text[19..] == "." + (Padded(6, t.micro) + ("" + "+00:00"));
      assert text[20..] == text[19..][1..] && text[19] == text[19..][0];
      FieldAt(text, 20, 6, t.micro, "", "+00:00");
    }
  }

  lemma ClockSpelled(text: string, t: Moment)
    requires Valid(t) && |text| >= 11 && text[11..] == HourOn(t)
    ensures |text| >= 19 && text[17..] == SecondOn(t)
    ensures Says(text, 11, 13, t.hour) && text[13] == ':' && Says(text, 14, 16, t.minute) && text[16] == ':'
  {
    Pow6();
    FieldAt(text, 11, 2, t.hour, ":", MinuteOn(t));
    assert text[13] == text[13..14][0];
    FieldAt(text, 14, 2, t.minute, ":", SecondOn(t));
    assert text[16] == text[16..17][0];
  }

  lemma DateSpelled(text: string, t: Moment)
    requires Valid(t) && text == IsoFormat(t)
    ensures |text| >= 11 && text[11..] == HourOn(t)
    ensures Says(text, 0, 4, t.year) && text[4] == '-' && Says(text, 5, 7, t.month) && text[7] == '-'
    ensures Says(text, 8, 10, t.day) && text[10] == 'T'
  {
    Pow6();
    assert text[0..] == text;
    FieldAt(text, 0, 4, t.year, "-", MonthOn(t));
    assert text[4] == text[4..5][0];
    FieldAt(text, 5, 2, t.month, "-", DayOn(t));
    assert text[7] == text[7..8][0];
    FieldAt(text, 8, 2, t.day, "T", HourOn(t));
    assert text[10] == text[10..11][0];
  }

  /** `isoformat` spells every field of the moment, so that the moment can be read back from it. */
  lemma IsoFormatSpells(t: Moment)
    requires Valid(t)
    ensures Spells(IsoFormat(t), t)
  {
    var text := IsoFormat(t);
    DateSpelled(text, t);
    ClockSpelled(text, t);
    SecondSpelled(text, t);
  }

  /** An offset of whole hours is taken off the clock: east of Greenwich it is earlier in UTC. */
  lemma OffsetTakenOff(d: DateTime, hours: int, u: Moment)
    requires d.offset == Some(hours * 3_600_000_000) && 0 <= d.clock.hour - hours < 24 && EnsuredUtc(d, u)
    ensures u == d.clock.(hour := d.clock.hour - hours)
  {
    var v := d.clock.(hour := d.clock.hour - hours);
    assert DayNumber(v) == DayNumber(d.clock);
    assert ClockTime(v) == Instant(d);
    UtcUnique(d, u, v);
  }

  /** Also across midnight, the end of a leap day and the end of a year. */
  lemma OffsetAcrossMidnight()
    ensures EnsuredUtc(DateTime(Moment(2024, 3, 1, 0, 30, 0, 0), Some(3_600_000_000)),
                       Moment(2024, 2, 29, 23, 30, 0, 0))
    ensures EnsuredUtc(DateTime(Moment(2023, 12, 31, 23, 30, 0, 0), Some(-3_600_000_000)),
                       Moment(2024, 1, 1, 0, 30, 0, 0))
  {
    MonthsInYear(2024);
    MonthsInYear(2023);
    assert DaysBeforeMonth(2024, 2) == 31 && DaysBeforeMonth(2024, 3) == 60;
    assert DaysBeforeMonth(2023, 13) == DaysBeforeMonth(2023, 12) + 31;
    YearLength(2023);
  }

  // ---- text order is field order ----

  predicate SubsecondBefore(a: Moment, b: Moment) { a.micro < b.micro }
  predicate SecondBefore(a: Moment, b: Moment) {
    a.second < b.second || (a.second == b.second && SubsecondBefore(a, b))
  }
  predicate MinuteBefore(a: Moment, b: Moment) { a.minute < b.minute || (a.minute == b.minute && SecondBefore(a, b)) }
  predicate HourBefore(a: Moment, b: Moment) { a.hour < b.hour || (a.hour == b.hour && MinuteBefore(a, b)) }
  predicate DayBefore(a: Moment, b: Moment) { a.day < b.day || (a.day == b.day && HourBefore(a, b)) }
  predicate MonthBefore(a: Moment, b: Moment) { a.month < b.month || (a.month == b.month && DayBefore(a, b)) }
  predicate Before(a: Moment, b: Moment) { a.year < b.year || (a.year == b.year && MonthBefore(a, b)) }

  /** A dropped fraction still sorts first, because '+' comes before '.'. */
  lemma FractionOrder(a: Moment, b: Moment)
    requires Valid(a) && Valid(b)
    ensures TextLess(Fraction(a) + "+00:00", Fraction(b) + "+00:00") <==> SubsecondBefore(a, b)
  {
    Pow6();
    var x, y := Fraction(a) + "+00:00", Fraction(b) + "+00:00";
    TextLessTrichotomy("+00:00", "+00:00");
    if a.micro == 0 || b.micro == 0 {
      assert x[0] == if a.micro == 0 then '+' else '.';
      assert y[0] == if b.micro == 0 then '+' else '.';
      assert a.micro == 0 == b.micro ==> x == y == "+00:00";
    } else {
      assert x == "." + (Padded(6, a.micro) + ("" + "+00:00")) && y == "." + (Padded(6, b.micro) + ("" + "+00:00"));
      TextLessTrichotomy(".", ".");
      TextLessConcat(".", ".", Padded(6, a.micro) + ("" + "+00:00"), Padded(6, b.micro) + ("" + "+00:00"));
      FieldOrder(6, a.micro, b.micro, "", "+00:00", "+00:00");
    }
  }

  lemma ClockTextOrder(a: Moment, b: Moment)
    requires Valid(a) && Valid(b)
    ensures TextLess(HourOn(a), HourOn(b)) <==> HourBefore(a, b)
  {
    Pow6();
    FractionOrder(a, b);
    FieldOrder(2, a.second, b.second, "", Fraction(a) + "+00:00", Fraction(b) + "+00:00");
    FieldOrder(2, a.minute, b.minute, ":", SecondOn(a), SecondOn(b));
    FieldOrder(2, a.hour, b.hour, ":", MinuteOn(a), MinuteOn(b));
  }

  lemma TextOrderIsFieldOrder(a: Moment, b: Moment)
    requires Valid(a) && Valid(b)
    ensures TextLess(IsoFormat(a), IsoFormat(b)) <==> Before(a, b)
  {
    Pow6();
    ClockTextOrder(a, b);
    FieldOrder(2, a.day, b.day, "T", HourOn(a), HourOn(b));
    FieldOrder(2, a.month, b.month, "-", DayOn(a), DayOn(b));
    FieldOrder(4, a.year, b.year, "-", MonthOn(a), MonthOn(b));
  }

  // ---- field order is time order ----

  lemma YearLength(y: nat)
    requires y >= 1
    ensures DaysBeforeYear(y + 1) == DaysBeforeYear(y) + 365 + (if IsLeap(y) then 1 else 0)
  {
    Quotient(y, 4);
    Quotient(y, 100);
    Quotient(y, 400);
    var x := y + 1;
    assert x - 1 == y;
    assert DaysBeforeYear(x) == y * 365 + y / 4 - y / 100 + y / 400;
  }

  lemma Quotient(y: nat, d: nat)
    requires y >= 1 && d in {4, 100, 400}
    ensures y / d == (y - 1) / d + (if y % d == 0 then 1 else 0)
  {
  }

  lemma {:induction false} YearsOrdered(x: nat, y: nat)
    requires 1 <= x < y
    ensures DaysBeforeYear(x) + 365 + (if IsLeap(x) then 1 else 0) <= DaysBeforeYear(y)
  {
    YearLength(y - 1);
    if x < y - 1 {
      YearsOrdered(x, y - 1);
    }
  }

  lemma {:induction false} MonthsOrdered(y: nat, m: nat, n: nat)
    requires 1 <= m < n <= 13
    ensures DaysBeforeMonth(y, m) + DaysInMonth(y, m) <= DaysBeforeMonth(y, n)
  {
    if m < n - 1 {
      MonthsOrdered(y, m, n - 1);
    }
  }

  lemma MonthsInYear(y: nat)
    ensures DaysBeforeMonth(y, 13) == 365 + (if IsLeap(y) then 1 else 0)
  {
    var leap := if IsLeap(y) then 1 else 0;
    assert DaysBeforeMonth(y, 2) == 31;
    assert DaysBeforeMonth(y, 3) == 59 + leap;
    assert DaysBeforeMonth(y, 5) == 120 + leap;
    assert DaysBeforeMonth(y, 7) == 181 + leap;
    assert DaysBeforeMonth(y, 9) == 243 + leap;
    assert DaysBeforeMonth(y, 11) == 304 + leap;
  }

  predicate DateBefore(a: Moment, b: Moment) {
    a.year < b.year || (a.year == b.year && (a.month < b.month || (a.month == b.month && a.day < b.day)))
  }

  lemma DayNumberGrows(a: Moment, b: Moment)
    requires Valid(a) && Valid(b) && DateBefore(a, b)
    ensures DayNumber(a) < DayNumber(b)
  {
    if a.year < b.year {
      YearsOrdered(a.year, b.year);
      MonthsInYear(a.year);
      MonthsOrdered(a.year, a.month, 13);
    } else if a.month < b.month {
      MonthsOrdered(a.year, a.month, b.month);
    }
  }

  lemma FieldOrderIsTimeOrder(a: Moment, b: Moment)
    requires Valid(a) && Valid(b)
    ensures ClockTime(a) < ClockTime(b) <==> Before(a, b)
  {
    if DateBefore(a, b) {
      DayNumberGrows(a, b);
    } else if DateBefore(b, a) {
      DayNumberGrows(b, a);
    } else {
      assert DayNumber(a) == DayNumber(b);
    }
  }

  /**
   Text order is time order: whatever the offsets of two datetimes and whether or not their fractions were
   dropped, the strings `format_datetime` writes compare as the instants do.
   */
  lemma TextOrderIsTimeOrder(d: DateTime, e: DateTime, u: Moment, v: Moment)
    requires EnsuredUtc(d, u) && EnsuredUtc(e, v)
    ensures TextLess(IsoFormat(u), IsoFormat(v)) <==> Instant(d) < Instant(e)
    ensures IsoFormat(u) == IsoFormat(v) <==> Instant(d) == Instant(e)
  {
    TextOrderIsFieldOrder(u, v);
    TextOrderIsFieldOrder(v, u);
    FieldOrderIsTimeOrder(u, v);
    FieldOrderIsTimeOrder(v, u);
    TextLessTrichotomy(IsoFormat(u), IsoFormat(v));
    if Instant(d) == Instant(e) {
      assert u == v;
    }
  }

  /** The text is what `format_datetime` writes for the UTC clock m. */
  ghost predicate Writes(m: Moment, text: string) { Valid(m) && text == IsoFormat(m) }

  lemma TextOrderOfMoments(m: Moment, n: Moment)
    requires Valid(m) && Valid(n)
    ensures TextLess(IsoFormat(m), IsoFormat(n)) <==> ClockTime(m) < ClockTime(n)
  {
    TextOrderIsFieldOrder(m, n);
    FieldOrderIsTimeOrder(m, n);
  }

  /** The UTC clock of an instant is unique, so `ensure_utc` has no choice. */
  lemma UtcUnique(d: DateTime, u: Moment, v: Moment)
    requires EnsuredUtc(d, u) && EnsuredUtc(d, v)
    ensures u == v
  {
    FieldOrderIsTimeOrder(u, v);
    FieldOrderIsTimeOrder(v, u);
  }

  /** Written with a "Z" for the offset, the same strings would be out of order: 'Z' comes after '.'. */
  lemma ZuluWouldBreakOrder()
    ensures exists a, b ::
              Valid(a) && Valid(b) && ClockTime(a) < ClockTime(b) &&
              TextLess(Fraction(b) + "Z", Fraction(a) + "Z")
  {
    var a, b := Moment(2026, 8, 5, 14, 30, 0, 0), Moment(2026, 8, 5, 14, 30, 0, 500_000);
    assert Valid(a) && Valid(b);
    assert (Fraction(b) + "Z")[0] == '.' && (Fraction(a) + "Z")[0] == 'Z';
    FieldOrderIsTimeOrder(a, b);
  }
}
