/**
 * The age calculator: completed whole years and remaining completed months
 * between a birth date and a reference date, and the Marathi label the
 * registry shows for them ("<years> वर्ष[े][, <months> महिने]").
 */
module Age {
  import opened Wrappers
  import Digits

  /** A calendar date; the clock reading "now" is passed in as one of these. */
  datatype Date = Date(year: int, month: int, day: int)

  predicate IsLeapYear(y: int) {
    y % 4 == 0 && (y % 100 != 0 || y % 400 == 0)
  }

  function DaysInMonth(y: int, m: int): (n: int)
    requires 1 <= m <= 12
    ensures 28 <= n <= 31
  {
    if m == 2 then (if IsLeapYear(y) then 29 else 28)
    else if m == 4 || m == 6 || m == 9 || m == 11 then 30
    else 31
  }

  /** A date a date picker can produce. */
  predicate ValidDate(d: Date) {
    1 <= d.month <= 12 && 1 <= d.day <= DaysInMonth(d.year, d.month)
  }

  /** `a` is on or before `b` in calendar order. */
  predicate DateLe(a: Date, b: Date) {
    a.year < b.year ||
    (a.year == b.year && (a.month < b.month || (a.month == b.month && a.day <= b.day)))
  }

  /** `d` moved by `n` years, keeping month and day. */
  function AddYears(d: Date, n: int): Date {
    d.(year := d.year + n)
  }

  /** Completed calendar months from `from` to `to`, negative when `to` is earlier. */
  function MonthsBetween(from: Date, to: Date): (m: int)
    ensures 1 <= from.month <= 12 && 1 <= to.month <= 12 ==> (m >= 0 <==> DateLe(from, to))
  {
    12 * (to.year - from.year) + (to.month - from.month) - (if to.day < from.day then 1 else 0)
  }

  /** The bounds of Euclidean division on a non-negative dividend. */
  lemma DivBounds(n: int, b: int)
    requires n >= 0 && b > 0
    ensures 0 <= n / b && (n / b) * b <= n < (n / b) * b + b
  {
    var q, r := n / b, n % b;
    assert n == q * b + r;
  }

  /** Integer division rounding toward zero, as the date library rounds a difference. */
  function TruncDiv(a: int, b: int): (q: int)
    requires b > 0
    ensures a >= 0 ==> 0 <= q && q * b <= a < q * b + b
    ensures a < 0 ==> q <= 0 && q * b - b < a <= q * b
  {
    var n := if a >= 0 then a else -a;
    DivBounds(n, b);
    if a >= 0 then n / b else -(n / b)
  }

  /**
   * The whole-year age at `now` of someone born on `dob` (the library's year
   * difference): for a birth date not after `now`, the number of whole
   * twelve-month spans in the completed months; never positive otherwise.
   */
  function WholeYears(dob: Date, now: Date): (y: int)
    ensures ValidDate(dob) && ValidDate(now) && DateLe(dob, now) ==>
              0 <= y && 12 * y <= MonthsBetween(dob, now) < 12 * y + 12
    ensures ValidDate(dob) && ValidDate(now) && !DateLe(dob, now) ==> y <= 0
  {
    TruncDiv(MonthsBetween(dob, now), 12)
  }

  /**
   * The completed months left over after the whole years: for a birth date
   * not after `now`, 0 to 11 months which with the whole years make up all
   * completed months.
   */
  function RemainderMonths(dob: Date, now: Date): (r: int)
    ensures ValidDate(dob) && ValidDate(now) && DateLe(dob, now) ==>
              0 <= r <= 11 && 12 * WholeYears(dob, now) + r == MonthsBetween(dob, now)
  {
    var y := WholeYears(dob, now);
    assert MonthsBetween(AddYears(dob, y), now) == MonthsBetween(dob, now) - 12 * y;
    MonthsBetween(AddYears(dob, y), now)
  }

  /**
   * The whole-year age reaches `n >= 1` exactly when the `n`-th birthday
   * (the birth date moved `n` years on) is on or before `now`.
   */
  lemma WholeYearsBirthday(dob: Date, now: Date, n: int)
    requires ValidDate(dob) && ValidDate(now) && n >= 1
    ensures WholeYears(dob, now) >= n <==> DateLe(AddYears(dob, n), now)
  {
    var mb := MonthsBetween(dob, now);
    assert MonthsBetween(AddYears(dob, n), now) == mb - 12 * n;
    var q := WholeYears(dob, now);
    if DateLe(dob, now) {
      if q >= n {
        assert 12 * n <= 12 * q;
      } else {
        assert 12 * q + 12 <= 12 * n;
      }
    }
  }

  const YearWord: string := " वर्ष"
  const PluralMark: char := 'े'
  const MonthWord: string := " महिने"

  /** The plural mark after the year word, present unless the years are exactly 1. */
  function PluralSuffix(years: nat): string {
    if years != 1 then [PluralMark] else []
  }

  /** The month clause, present only for a positive number of months. */
  function MonthClause(months: int): string {
    if months > 0 then ", " + Digits.Show(months) + MonthWord else ""
  }

  /**
   * The label for `years` whole years and `months` further months. It opens
   * with the years and the year word; the plural mark follows exactly when
   * the years are not 1; a comma (the month clause) appears exactly when the
   * months are positive.
   */
  function Label(years: nat, months: int): (s: string)
    ensures var k := |Digits.Show(years)| + |YearWord|;
            |s| >= k && s[..k] == Digits.Show(years) + YearWord &&
            ((years != 1) <==> (|s| > k && s[k] == PluralMark)) &&
            ((months > 0) <==> ',' in s)
  {
    LabelParts(years, months);
    Digits.Show(years) + YearWord + PluralSuffix(years) + MonthClause(months)
  }

  lemma LabelParts(years: nat, months: int)
    ensures var d := Digits.Show(years);
            var s := d + YearWord + PluralSuffix(years) + MonthClause(months);
            var k := |d| + |YearWord|;
            |s| >= k && s[..k] == d + YearWord &&
            ((years != 1) <==> (|s| > k && s[k] == PluralMark)) &&
            ((months > 0) <==> ',' in s)
  {
    var d := Digits.Show(years);
    var p, c := PluralSuffix(years), MonthClause(months);
    var s := d + YearWord + p + c;
    var k := |d| + |YearWord|;
    assert s == (d + YearWord) + (p + c);
    assert s[..k] == d + YearWord;
    assert ',' !in d;
    if months > 0 {
      assert c[0] == ',';
      assert s[k + |p|] == ',';
    } else {
      assert s == d + YearWord + p;
    }
    if years == 1 && |s| > k {
      assert s[k] == ',';
    }
  }

  /** The number of leading decimal digits of `s`. */
  function LeadingDigits(s: string): (k: nat)
    ensures k <= |s| && Digits.AllDigits(s[..k])
    ensures k < |s| ==> !Digits.IsDigit(s[k])
  {
    if s == [] || !Digits.IsDigit(s[0]) then 0 else 1 + LeadingDigits(s[1..])
  }

  /** Reads ", <months> महिने" to its end; months must be a positive numeral. */
  function ParseMonthClause(t: string): Option<nat> {
    if |t| < 2 || t[..2] != ", " then None
    else
      var k := LeadingDigits(t[2..]);
      if !Digits.IsNumeral(t[2..][..k]) || t[2 + k..] != MonthWord then None
      else
        var m := Digits.Read(t[2..][..k]);
        if m == 0 then None else Some(m)
  }

  /** Reads what follows the years' numeral: the year word, the plural mark and the month clause. */
  function ParseYearTail(years: nat, r: string): Option<nat> {
    if |r| < |YearWord| || r[..|YearWord|] != YearWord then None
    else
      var r2 := r[|YearWord|..];
      var plural := |r2| > 0 && r2[0] == PluralMark;
      if plural != (years != 1) then None
      else
        var r3 := if plural then r2[1..] else r2;
        if r3 == [] then Some(0) else ParseMonthClause(r3)
  }

  /** Recovers the years and months from a label, and gives None for every string that is not a label. */
  function ParseLabel(s: string): Option<(nat, nat)> {
    var k := LeadingDigits(s);
    if !Digits.IsNumeral(s[..k]) then None
    else
      var y := Digits.Read(s[..k]);
      match ParseYearTail(y, s[k..])
      case None => None
      case Some(m) => Some((y, m))
  }

  /** The leading digits of a numeral followed by a non-digit are that numeral. */
  lemma {:induction false} LeadingDigitsOfNumeral(d: string, rest: string)
    requires Digits.AllDigits(d)
    requires rest == [] || !Digits.IsDigit(rest[0])
    ensures LeadingDigits(d + rest) == |d|
  {
    if d != [] {
      assert (d + rest)[1..] == d[1..] + rest;
      LeadingDigitsOfNumeral(d[1..], rest);
    }
  }

  /** The month clause reads back as the months it shows. */
  lemma ParseMonthClauseOfShow(m: nat)
    requires m > 0
    ensures ParseMonthClause(MonthClause(m)) == Some(m)
  {
    var d := Digits.Show(m);
    var t := ", " + d + MonthWord;
    assert t[..2] == ", ";
    assert t[2..] == d + MonthWord;
    LeadingDigitsOfNumeral(d, MonthWord);
    assert t[2 + |d|..] == MonthWord;
    assert t[2..][..|d|] == d;
    Digits.ReadShow(m);
  }

  /** Whatever follows the years' numeral in a label reads back as the months. */
  lemma YearTailRoundTrip(years: nat, months: nat)
    ensures ParseYearTail(years, YearWord + PluralSuffix(years) + MonthClause(months)) == Some(months)
  {
    var p, c := PluralSuffix(years), MonthClause(months);
    var r := YearWord + p + c;
    assert r[..|YearWord|] == YearWord;
    var r2 := r[|YearWord|..];
    assert r2 == p + c;
    if years != 1 {
      assert r2[1..] == c;
    } else if c != [] {
      assert r2[0] == ',';
    }
    if months > 0 {
      ParseMonthClauseOfShow(months);
    }
  }

  /** A label determines the years and months it was made from. */
  lemma LabelRoundTrip(years: nat, months: nat)
    ensures ParseLabel(Label(years, months)) == Some((years, months))
  {
    NumeralThenTail(years, months);
  }

  lemma NumeralThenTail(years: nat, months: nat)
    ensures ParseLabel(Digits.Show(years) + YearWord + PluralSuffix(years) + MonthClause(months))
            == Some((years, months))
  {
    var d := Digits.Show(years);
    var tail := YearWord + PluralSuffix(years) + MonthClause(months);
    Regroup(d, tail, YearWord, PluralSuffix(years), MonthClause(months));
    assert tail[0] == ' ';
    ParseNumeralThen(d, tail);
    Digits.ReadShow(years);
    YearTailRoundTrip(years, months);
  }

  /** A numeral followed by a non-digit parses as that numeral's value and whatever the tail reads as. */
  lemma ParseNumeralThen(d: string, tail: string)
    requires Digits.IsNumeral(d) && (tail == [] || !Digits.IsDigit(tail[0]))
    ensures ParseLabel(d + tail) ==
              match ParseYearTail(Digits.Read(d), tail)
              case None => None
              case Some(m) => Some((Digits.Read(d), m))
  {
    LeadingDigitsOfNumeral(d, tail);
    assert (d + tail)[..|d|] == d && (d + tail)[|d|..] == tail;
  }

  /** A string the month-clause reader accepts is the month clause of what it reads. */
  lemma ParseMonthClauseSound(t: string, m: nat)
    requires ParseMonthClause(t) == Some(m)
    ensures t == MonthClause(m)
  {
    var k := LeadingDigits(t[2..]);
    var d := t[2..][..k];
    Digits.ShowRead(d);
    assert t == t[..2] + d + t[2 + k..];
  }

  /** A string the tail reader accepts is the tail of a label for what it reads. */
  lemma ParseYearTailSound(years: nat, r: string, m: nat)
    requires ParseYearTail(years, r) == Some(m)
    ensures r == YearWord + PluralSuffix(years) + MonthClause(m)
  {
    var r2 := r[|YearWord|..];
    assert r == YearWord + r2;
    var plural := |r2| > 0 && r2[0] == PluralMark;
    var r3 := if plural then r2[1..] else r2;
    assert r2 == PluralSuffix(years) + r3;
    if r3 != [] {
      ParseMonthClauseSound(r3, m);
    }
  }

  /** Every string the label reader accepts is exactly the label of what it reads. */
  lemma ParseLabelSound(s: string, years: nat, months: nat)
    requires ParseLabel(s) == Some((years, months))
    ensures s == Label(years, months)
  {
    var k := LeadingDigits(s);
    ParseLabelParts(s, years, months);
    NumeralThenTailSound(s[..k], s[k..], years, months);
    assert s == s[..k] + s[k..];
  }

  lemma NumeralThenTailSound(d: string, r: string, years: nat, months: nat)
    requires Digits.IsNumeral(d) && Digits.Read(d) == years && ParseYearTail(years, r) == Some(months)
    ensures d + r == Digits.Show(years) + YearWord + PluralSuffix(years) + MonthClause(months)
  {
    Digits.ShowRead(d);
    ParseYearTailSound(years, r, months);
    Regroup(d, r, YearWord, PluralSuffix(years), MonthClause(months));
  }

  /** Regrouping a concatenation whose tail is known piece by piece. */
  lemma Regroup(d: string, r: string, w: string, p: string, c: string)
    requires r == w + p + c
    ensures d + r == d + w + p + c
  {
  }

  lemma ParseLabelParts(s: string, years: nat, months: nat)
    requires ParseLabel(s) == Some((years, months))
    ensures var k := LeadingDigits(s);
            Digits.IsNumeral(s[..k]) && Digits.Read(s[..k]) == years &&
            ParseYearTail(years, s[k..]) == Some(months)
  {
  }

  /**
   * The label shown for someone born on `dob`, read at `now`; it reads back
   * as the whole years and the remaining months.
   */
  function AgeLabel(dob: Date, now: Date): (s: string)
    requires ValidDate(dob) && ValidDate(now) && DateLe(dob, now)
    ensures ParseLabel(s) == Some((WholeYears(dob, now) as nat, RemainderMonths(dob, now) as nat))
  {
    LabelRoundTrip(WholeYears(dob, now), RemainderMonths(dob, now));
    Label(WholeYears(dob, now), RemainderMonths(dob, now))
  }

  /** Birth date equal to the reference date: "0 वर्षे" with no month clause. */
  lemma BornToday(now: Date)
    requires ValidDate(now)
    ensures AgeLabel(now, now) == "0 वर्षे"
  {
  }

  /** Born 2020-01-01, read on 2025-06-01: five years and five months. */
  lemma FiveYearsFiveMonths()
    ensures WholeYears(Date(2020, 1, 1), Date(2025, 6, 1)) == 5
    ensures RemainderMonths(Date(2020, 1, 1), Date(2025, 6, 1)) == 5
    ensures AgeLabel(Date(2020, 1, 1), Date(2025, 6, 1)) == "5 वर्षे, 5 महिने"
  {
    assert MonthsBetween(Date(2020, 1, 1), Date(2025, 6, 1)) == 65;
    assert WholeYears(Date(2020, 1, 1), Date(2025, 6, 1)) == 5;
    assert RemainderMonths(Date(2020, 1, 1), Date(2025, 6, 1)) == 5;
    assert Digits.Show(5) == "5";
    assert MonthClause(5) == ", 5 महिने";
    assert Label(5, 5) == "5 वर्षे, 5 महिने";
  }
}
