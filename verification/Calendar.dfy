/** Days of the calendar: their text as "2006-01-02" and their distance in days. */
module Calendar {
  import opened Bytes
  import opened Decimal

  datatype Date = Date(year: nat, month: nat, day: nat) {
    predicate Valid() {
      year <= 9999 && 1 <= month <= 12 && 1 <= day <= DaysIn(year, month)
    }
  }

  predicate IsLeap(year: nat) {
    year % 4 == 0 && (year % 100 != 0 || year % 400 == 0)
  }

  function DaysIn(year: nat, month: nat): nat {
    if month == 2 then (if IsLeap(year) then 29 else 28)
    else if month == 4 || month == 6 || month == 9 || month == 11 then 30 else 31
  }

  // Days before the first of a month of the year.
  function DaysBefore(year: nat, month: nat): nat {
    if month <= 1 then 0 else DaysBefore(year, month - 1) + DaysIn(year, month - 1)
  }

  function DaysBeforeYear(year: nat): nat {
    if year == 0 then 0 else DaysBeforeYear(year - 1) + if IsLeap(year - 1) then 366 else 365
  }

  function DayNumber(d: Date): nat {
    DaysBeforeYear(d.year) + DaysBefore(d.year, d.month) + d.day
  }

  function NextDay(d: Date): Date
    requires d.Valid()
  {
    if d.day < DaysIn(d.year, d.month) then Date(d.year, d.month, d.day + 1)
    else if d.month < 12 then Date(d.year, d.month + 1, 1)
    else Date(d.year + 1, 1, 1)
  }

  /** The months' lengths, and the leap years of the Gregorian calendar by the days they add up to. */
  lemma MonthsAre(year: nat, month: nat)
    requires 1 <= month <= 12
    ensures DaysIn(year, month) ==
      if month == 2 && DaysBeforeYear(year + 1) - DaysBeforeYear(year) == 366 then 29
      else [31, 28, 31, 30, 31, 30, 31, 31, 30, 31, 30, 31][month - 1]
  {
  }

  /** Days before a year, without a year by year count: 365 each, and one more for every leap year passed. */
  lemma {:induction false} YearsAre(year: nat)
    ensures DaysBeforeYear(year) == 365 * year + (year + 3) / 4 - (year + 99) / 100 + (year + 399) / 400
  {
    if year > 0 {
      YearsAre(year - 1);
      OverFour(year - 1);
      OverHundred(year - 1);
      OverFourHundred(year - 1);
      LeapAdds(year - 1);
    }
  }

  lemma LeapAdds(y: nat)
    ensures (if IsLeap(y) then 1 else 0)
      == (if y % 4 == 0 then 1 else 0) - (if y % 100 == 0 then 1 else 0) + (if y % 400 == 0 then 1 else 0)
  {
    HundredsAreFours(y);
    FourHundredsAreHundreds(y);
  }

  lemma HundredsAreFours(y: nat)
    ensures y % 100 == 0 ==> y % 4 == 0
  {
    if y % 100 == 0 {
      MultipleOf(4, 25 * (y / 100));
    }
  }

  lemma FourHundredsAreHundreds(y: nat)
    ensures y % 400 == 0 ==> y % 100 == 0
  {
    if y % 400 == 0 {
      MultipleOf(100, 4 * (y / 400));
    }
  }

  lemma MultipleOf(d: nat, k: nat)
    requires d == 4 || d == 100
    ensures d * k % d == 0
  {
  }

  lemma OverFour(y: nat)
    ensures (y + 4) / 4 == (y + 3) / 4 + if y % 4 == 0 then 1 else 0
  {
  }

  lemma OverHundred(y: nat)
    ensures (y + 100) / 100 == (y + 99) / 100 + if y % 100 == 0 then 1 else 0
  {
  }

  lemma OverFourHundred(y: nat)
    ensures (y + 400) / 400 == (y + 399) / 400 + if y % 400 == 0 then 1 else 0
  {
  }

  lemma DaysInYear(year: nat)
    ensures DaysBefore(year, 12) + 31 == if IsLeap(year) then 366 else 365
  {
    assert DaysBefore(year, 2) == DaysIn(year, 1);
    assert DaysBefore(year, 3) == DaysIn(year, 1) + DaysIn(year, 2);
    assert DaysBefore(year, 5) == DaysBefore(year, 3) + 61;
    assert DaysBefore(year, 7) == DaysBefore(year, 5) + 61;
    assert DaysBefore(year, 9) == DaysBefore(year, 7) + 62;
    assert DaysBefore(year, 11) == DaysBefore(year, 9) + 61;
  }

  /** The number counts days: the next day of the calendar is the next number. */
  lemma NextDayNumber(d: Date)
    requires d.Valid()
    ensures DayNumber(NextDay(d)) == DayNumber(d) + 1
  {
    if d.day == DaysIn(d.year, d.month) && d.month == 12 {
      DaysInYear(d.year);
    }
  }

  function Format(d: Date): (s: string)
    ensures |s| == 10 && s[4] == '-'
  {
    Fixed(d.year, 4) + "-" + Fixed(d.month, 2) + "-" + Fixed(d.day, 2)
  }

  function Parse(s: string): (r: Option<Date>)
    ensures r.Some? ==> r.value.Valid()
  {
    if |s| != 10 || s[4] != '-' || s[7] != '-'
       || !AllDigits(s[..4]) || !AllDigits(s[5..7]) || !AllDigits(s[8..]) then None
    else
      var d := Date(NatValue(s[..4]), NatValue(s[5..7]), NatValue(s[8..]));
      if d.Valid() then Some(d) else None
  }

  /** Only a printed day is read: nothing else comes to a day. */
  lemma FormatParse(s: string)
    requires Parse(s).Some?
    ensures Format(Parse(s).value) == s
  {
    FixedValue(s[..4]);
    FixedValue(s[5..7]);
    FixedValue(s[8..]);
    assert s == s[..4] + "-" + s[5..7] + "-" + s[8..];
  }

  ghost function DigitAt(s: string, i: nat): int
    requires i < |s|
  {
    s[i] as int - '0' as int
  }

  /** A day's text: four digits of the year, two of the month and two of the day, with dashes between. */
  lemma FormatIs(d: Date)
    requires d.Valid()
    ensures var s := Format(d);
      && |s| == 10 && s[4] == '-' && s[7] == '-'
      && d.year == 1000 * DigitAt(s, 0) + 100 * DigitAt(s, 1) + 10 * DigitAt(s, 2) + DigitAt(s, 3)
      && d.month == 10 * DigitAt(s, 5) + DigitAt(s, 6)
      && d.day == 10 * DigitAt(s, 8) + DigitAt(s, 9)
  {
    var s := Format(d);
    ParseFormat(d);
    var year, month, day := s[..4], s[5..7], s[8..];
    FourDigits(year);
    TwoDigits(month);
    TwoDigits(day);
  }

  lemma TwoDigits(s: string)
    requires |s| == 2 && AllDigits(s)
    ensures NatValue(s) == 10 * DigitAt(s, 0) + DigitAt(s, 1)
  {
    assert s[..1][..0] == "" && s[..1][0] == s[0];
    assert NatValue(s[..1]) == 10 * NatValue("") + DigitValue(s[0]);
  }

  lemma FourDigits(s: string)
    requires |s| == 4 && AllDigits(s)
    ensures NatValue(s) == 1000 * DigitAt(s, 0) + 100 * DigitAt(s, 1) + 10 * DigitAt(s, 2) + DigitAt(s, 3)
  {
    TwoDigits(s[..2]);
    assert s[..3][..2] == s[..2] && s[..3][2] == s[2];
    assert NatValue(s[..3]) == 10 * NatValue(s[..2]) + DigitValue(s[2]);
  }

  /** Reading back a printed day gives the day. */
  lemma ParseFormat(d: Date)
    requires d.Valid()
    ensures Parse(Format(d)) == Some(d)
  {
    var s := Format(d);
    assert s[..4] == Fixed(d.year, 4) && s[5..7] == Fixed(d.month, 2) && s[8..] == Fixed(d.day, 2);
    assert Power10(4) == 10 * Power10(3) && Power10(3) == 10 * Power10(2) && Power10(2) == 10 * Power10(1);
    NatValueFixed(d.year, 4, Power10(4));
    NatValueFixed(d.month, 2, Power10(2));
    NatValueFixed(d.day, 2, Power10(2));
  }
}
