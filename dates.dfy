/** Expiration dates (`getExpireDate`) and the "M/D/YYYY" form in which they
 *  are stored. A date is the local calendar date JavaScript's `Date` reports:
 *  `getFullYear()`, the 0-based `getMonth()` and `getDate()`. */
module Dates {
  import opened Optional
  import Seqs
  import Decimal

  datatype Date = Date(year: int, month: int, day: int)

  /** The proleptic Gregorian leap-year rule that `Date` follows. */
  predicate IsLeapYear(y: int) {
    y % 4 == 0 && (y % 100 != 0 || y % 400 == 0)
  }

  function DaysInMonth(y: int, m: int): int
    requires 0 <= m < 12
  {
    if m == 1 then (if IsLeapYear(y) then 29 else 28)
    else if m == 3 || m == 5 || m == 8 || m == 10 then 30
    else 31
  }

  predicate Valid(d: Date) {
    0 <= d.month < 12 && 1 <= d.day <= DaysInMonth(d.year, d.month)
  }

  /** Chronological order of valid dates: year, then month, then day. */
  predicate Before(a: Date, b: Date) {
    a.year < b.year
    || (a.year == b.year && a.month < b.month)
    || (a.year == b.year && a.month == b.month && a.day < b.day)
  }

  predicate OnOrBefore(a: Date, b: Date) {
    a == b || Before(a, b)
  }

  /** The year `new Date(y, m, d)` takes its year argument to mean: 0 to 99
   *  stand for 1900 to 1999, any other year is itself. */
  function FullYear(y: int): (r: int)
    ensures 0 <= y <= 99 ==> r == 1900 + y
    ensures (y < 0 || y > 99) ==> r == y
    ensures r < 0 || r > 99
  {
    if 0 <= y <= 99 then 1900 + y else y
  }

  /** A month in range and a positive day, with a day past the end of the
   *  month rolled over into the following months. */
  function RollOver(y: int, m: int, d: int): (r: Date)
    requires 0 <= m < 12 && 1 <= d
    ensures Valid(r)
    ensures r.year > y || (r.year == y && r.month >= m)
    ensures d <= DaysInMonth(y, m) ==> r == Date(y, m, d)
    decreases d
  {
    if d <= DaysInMonth(y, m) then Date(y, m, d)
    else if m == 11 then RollOver(y + 1, 0, d - 31)
    else RollOver(y, m + 1, d - DaysInMonth(y, m))
  }

  /** `new Date(y, m, d)` for a month in range and a positive day: the year
   *  is read as `FullYear(y)` first, then the day rolls over. */
  function MakeDate(y: int, m: int, d: int): (r: Date)
    requires 0 <= m < 12 && 1 <= d
    ensures Valid(r)
    ensures r.year > FullYear(y) || (r.year == FullYear(y) && r.month >= m)
    ensures d <= DaysInMonth(FullYear(y), m) ==> r == Date(FullYear(y), m, d)
  {
    RollOver(FullYear(y), m, d)
  }

  /** `getExpireDate`: one calendar month after the payment date, except that
   *  a December payment always expires on the first of January. */
  function ExpireDate(paid: Date): (e: Date)
    requires Valid(paid)
    ensures Valid(e) && Before(paid, e)
    ensures e.year < 0 || e.year > 99
  {
    if paid.month == 11 then MakeDate(paid.year + 1, 0, 1)
    else MakeDate(paid.year, paid.month + 1, paid.day)
  }

  lemma ExpireDecember(paid: Date)
    requires Valid(paid) && paid.month == 11
    ensures ExpireDate(paid) == Date(FullYear(paid.year + 1), 0, 1)
  {
  }

  /** Outside December the day is kept whenever the next month has it ... */
  lemma ExpireSameDayNextMonth(paid: Date)
    requires Valid(paid) && paid.month < 11
    requires paid.day <= DaysInMonth(FullYear(paid.year), paid.month + 1)
    ensures ExpireDate(paid) == Date(FullYear(paid.year), paid.month + 1, paid.day)
  {
  }

  /** ... and otherwise (the 29th to 31st of a month followed by a shorter
   *  one) the date overflows into the month after, by at most three days. */
  lemma ExpireRollsOver(paid: Date)
    requires Valid(paid) && paid.month < 11
    requires paid.day > DaysInMonth(FullYear(paid.year), paid.month + 1)
    ensures paid.month + 2 < 12
    ensures ExpireDate(paid) == Date(FullYear(paid.year), paid.month + 2, paid.day - DaysInMonth(FullYear(paid.year), paid.month + 1))
    ensures ExpireDate(paid).day <= 3
  {
    var y, m := FullYear(paid.year), paid.month + 1;
    assert m != 11 && m != 0;
    assert DaysInMonth(y, m + 1) >= 28;
  }

  /** Because of the rollover, a later payment can expire earlier: 31 January
   *  2023 expires on 3 March, 1 February 2023 on 1 March. */
  lemma ExpireNotMonotone()
    ensures Before(Date(2023, 0, 31), Date(2023, 1, 1))
    ensures ExpireDate(Date(2023, 0, 31)) == Date(2023, 2, 3)
    ensures ExpireDate(Date(2023, 1, 1)) == Date(2023, 2, 1)
  {
    ExpireRollsOver(Date(2023, 0, 31));
    ExpireSameDayNextMonth(Date(2023, 1, 1));
  }

  /** A year from 0 to 99 is read as a twentieth-century year: a payment on
   *  14 March of year 50 expires on 14 April 1950, one on 5 December of
   *  year 98 on 1 January 1999. And `new Date(0, 1, 29)` is 1 March 1900:
   *  year 0 is a leap year, 1900 is not. */
  lemma ExpireTwoDigitYears()
    ensures ExpireDate(Date(50, 2, 14)) == Date(1950, 3, 14)
    ensures ExpireDate(Date(98, 11, 5)) == Date(1999, 0, 1)
    ensures IsLeapYear(0) && MakeDate(0, 1, 29) == Date(1900, 2, 1)
  {
    assert RollOver(1900, 1, 29) == RollOver(1900, 2, 1);
  }

  /** The stored form "M/D/YYYY": 1-based month, no padding. */
  function Render(d: Date): string {
    Decimal.FromInt(d.month + 1) + "/" + Decimal.FromInt(d.day) + "/" + Decimal.FromInt(d.year)
  }

  /** Reads the "M/D/YYYY" form back into a date. */
  function Parse(s: string): Option<Date> {
    var (m, rest) := Seqs.SplitFirst(s, '/');
    if rest.None? then None
    else
      var (d, y) := Seqs.SplitFirst(rest.value, '/');
      if y.None? then None
      else
        match (Decimal.ToInt(m), Decimal.ToInt(d), Decimal.ToInt(y.value))
        case (Some(mm), Some(dd), Some(yy)) => Some(Date(yy, mm - 1, dd))
        case _ => None
  }

  /** Three numbers joined by '/' are read back field by field. */
  lemma ParseJoin(m: string, dd: string, y: string, month: int, day: int, year: int)
    requires '/' !in m && '/' !in dd
    requires Decimal.ToInt(m) == Some(month) && Decimal.ToInt(dd) == Some(day)
    requires Decimal.ToInt(y) == Some(year)
    ensures Parse(m + "/" + dd + "/" + y) == Some(Date(year, month - 1, day))
  {
    assert m + "/" + dd + "/" + y == m + ['/'] + (dd + ['/'] + y);
    Seqs.SplitFirstJoin(m, '/', dd + ['/'] + y);
    Seqs.SplitFirstJoin(dd, '/', y);
  }

  /** The stored string determines the date it was rendered from. */
  lemma ParseRender(d: Date)
    ensures Parse(Render(d)) == Some(d)
  {
    var m, dd, y := Decimal.FromInt(d.month + 1), Decimal.FromInt(d.day), Decimal.FromInt(d.year);
    assert '/' !in m && '/' !in dd;
    Decimal.ToIntFromInt(d.month + 1);
    Decimal.ToIntFromInt(d.day);
    Decimal.ToIntFromInt(d.year);
    ParseJoin(m, dd, y, d.month + 1, d.day, d.year);
  }

  /** A payment that expires on 14 April 2024 is stored as "4/14/2024": a
   *  1-based month and no padding. */
  lemma RenderExample()
    ensures Render(Date(2024, 3, 14)) == "4/14/2024"
  {
    assert Decimal.FromNat(2024) == Decimal.FromNat(202) + "4";
    assert Decimal.FromNat(202) == Decimal.FromNat(20) + "2";
    assert Decimal.FromNat(20) == Decimal.FromNat(2) + "0";
    assert Decimal.FromNat(14) == Decimal.FromNat(1) + "4";
  }
}
