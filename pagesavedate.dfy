// The date rules of the page footer script that shows when a page was
// last saved: the ordinal suffix of the day, the normalisation of the year
// the browser reports, and the two-digit hours and minutes.

module PageSaveDate {

  datatype Option<T> = None | Some(value: T)

  /** DateSuffix. */
  const DATE_SUFFIX: seq<string> := ["st", "nd", "rd", "th"]

  // ---------------------------------------------------------------------------
  // The day suffix
  // ---------------------------------------------------------------------------

  /** The index into DateSuffix the script picks for a day of the month:
      days 1 to 3 directly, 21 to 23 and 31 by their last digit (30 is
      excluded by name), every other day "th". On positive days the script's
      % agrees with Dafny's. */
  function SuffixIndex(day: int): (i: int)
    ensures 1 <= day <= 31 ==> 0 <= i < |DATE_SUFFIX|
  {
    if 0 < day < 4 then day - 1
    else if day != 30 && day > 20 && day % 10 < 4 then day % 10 - 1
    else 3
  }

  /** The suffix for a day, or None where the index falls outside DateSuffix
      (the script would then show "undefined"). */
  function DaySuffix(day: int): (s: Option<string>)
    ensures 1 <= day <= 31 ==> s.Some?
  {
    var i := SuffixIndex(day);
    if 0 <= i < |DATE_SUFFIX| then Some(DATE_SUFFIX[i]) else None
  }

  /** The English ordinal suffix, by its usual rule: 11th, 12th and 13th,
      otherwise st, nd and rd after a last digit of 1, 2 and 3, else th. */
  function EnglishOrdinal(n: nat): string {
    if 11 <= n % 100 <= 13 then "th"
    else if n % 10 == 1 then "st"
    else if n % 10 == 2 then "nd"
    else if n % 10 == 3 then "rd"
    else "th"
  }

  /** Every day of a month gets its English ordinal suffix. */
  lemma DaySuffixIsOrdinal(day: int)
    requires 1 <= day <= 31
    ensures DaySuffix(day) == Some(EnglishOrdinal(day))
  {
    if day < 4 {
    } else if day < 21 {
      assert day % 100 == day;
    } else {
      assert day % 100 == day && day / 10 * 10 + day % 10 == day;
    }
  }

  /** The cases the script names: 1st, 2nd, 3rd, 21st, 22nd, 23rd, 31st,
      and 30th, which its second test excludes. */
  lemma DaySuffixCases()
    ensures DaySuffix(1) == Some("st") && DaySuffix(2) == Some("nd") && DaySuffix(3) == Some("rd")
    ensures DaySuffix(21) == Some("st") && DaySuffix(22) == Some("nd") && DaySuffix(23) == Some("rd")
    ensures DaySuffix(31) == Some("st") && DaySuffix(30) == Some("th")
    ensures forall d :: 4 <= d <= 20 ==> DaySuffix(d) == Some("th")
  {
  }

  /** Outside a month the rule is not an ordinal rule: day 40 has no suffix
      at all, and day 0 gets "th". */
  lemma DaySuffixOutsideMonth()
    ensures DaySuffix(40) == None && DaySuffix(0) == Some("th")
  {
  }

  // ---------------------------------------------------------------------------
  // The year
  // ---------------------------------------------------------------------------

  /** The year shown for the value getYear gives: under 50 a year of the
      2000s, under 1900 a year counted from 1900, otherwise a full year;
      a value that is not positive is blanked (None). */
  function NormalizeYear(y: int): (r: Option<int>)
    ensures r.Some? <==> y > 0
    ensures r.Some? ==> r.value >= 1900
  {
    if y > 0 then
      if y < 1900 then
        if y < 50 then Some(y + 2000) else Some(y + 1900)
      else Some(y)
    else None
  }

  /** Each of the three formats the script expects gives the calendar year
      back: a count from 1900 for 1950 to 3799, two digits for 2001 to
      2049, and a full year from 1900 on. */
  lemma NormalizeYearFormats(year: int)
    ensures 1950 <= year < 3800 ==> NormalizeYear(year - 1900) == Some(year)
    ensures 2001 <= year <= 2049 ==> NormalizeYear(year - 2000) == Some(year)
    ensures year >= 1900 ==> NormalizeYear(year) == Some(year)
  {
  }

  /** The formats overlap below 1950: a count from 1900 of 1 to 49 reads as
      a two-digit year, so 1901 to 1949 show as 2001 to 2049; and 0, the
      count for 1900 or two digits for 2000, is blanked. */
  lemma NormalizeYearAmbiguous(year: int)
    requires 1901 <= year <= 1949
    ensures NormalizeYear(year - 1900) == Some(year + 100)
    ensures NormalizeYear(0) == None
  {
  }

  // ---------------------------------------------------------------------------
  // Hours and minutes
  // ---------------------------------------------------------------------------

  function Digit(d: nat): (c: char)
    requires d < 10
    ensures '0' <= c <= '9' && c as int - '0' as int == d
  {
    ('0' as int + d) as char
  }

  /** The decimal digits of a number, as string concatenation shows it. */
  function Decimal(n: nat): (s: string)
    ensures |s| >= 1
    ensures forall k :: 0 <= k < |s| ==> '0' <= s[k] <= '9'
  {
    if n < 10 then [Digit(n)] else Decimal(n / 10) + [Digit(n % 10)]
  }

  /** String.slice(-2): the last two characters, or the whole of a shorter
      string. */
  function LastTwo(s: string): (r: string)
    ensures |r| == if |s| < 2 then |s| else 2
  {
    if |s| < 2 then s else s[|s| - 2..]
  }

  /** ('0' + n).slice(-2), as the script shows hours and minutes. */
  function Pad2(n: nat): string {
    LastTwo("0" + Decimal(n))
  }

  /** The value two decimal digits stand for. */
  function TwoDigitValue(s: string): int
    requires |s| == 2
  {
    (s[0] as int - '0' as int) * 10 + (s[1] as int - '0' as int)
  }

  /** Every hour and minute shows as exactly two digits that read back as
      the number, with a leading 0 below ten. */
  lemma Pad2ReadsBack(n: nat)
    requires n <= 59
    ensures |Pad2(n)| == 2 && '0' <= Pad2(n)[0] <= '9' && '0' <= Pad2(n)[1] <= '9'
    ensures TwoDigitValue(Pad2(n)) == n
    ensures n < 10 <==> Pad2(n)[0] == '0'
  {
    if n < 10 {
      assert Decimal(n) == [Digit(n)];
      assert Pad2(n) == ['0', Digit(n)];
    } else {
      assert Decimal(n / 10) == [Digit(n / 10)];
      assert Decimal(n) == [Digit(n / 10), Digit(n % 10)];
      assert Pad2(n) == [Digit(n / 10), Digit(n % 10)];
    }
  }
}
