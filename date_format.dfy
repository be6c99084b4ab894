/** Occurrence keys: calendar dates written as `yyyy-MM-dd`, the extended
    complete calendar date format of ISO 8601 (section 5.2.1.1 of
    ISO 8601:2004), and the per-occurrence key `<choreId>_<yyyy-MM-dd>`. */
module DateFormat {
  import opened Common
  import opened CalendarDate

  /** The year date-fns writes for the `yyyy` token: the era year, so that
      year 0 (1 BC) is written as 1, year -1 as 2, and so on. */
  function EraYear(y: int): (e: nat)
    ensures e >= 1
    ensures y >= 1 ==> e == y
  {
    if y > 0 then y else 1 - y
  }

  /** formatDateISO: `yyyy-MM-dd`, zero padded. Every date whose era year
      has at most four digits, year 0 and earlier included, is written in
      the `yyyy-MM-dd` shape; longer years only lengthen the year field. */
  function FormatDateISO(d: Date): (s: string)
    ensures |s| >= 10
    ensures EraYear(d.year) <= 9999 ==> DateShaped(s)
  {
    var s := Digits(EraYear(d.year), 4) + "-" + Digits(d.month, 2) + "-" + Digits(d.day, 2);
    if EraYear(d.year) <= 9999 then
      FourDigits(EraYear(d.year));
      TwoDigits(d.month);
      TwoDigits(d.day);
      s
    else s
  }

  /** The `yyyy-MM-dd` shape: ten characters, digits everywhere except the
      dashes at positions 4 and 7. */
  predicate DateShaped(s: string) {
    |s| == 10 && s[4] == '-' && s[7] == '-'
    && IsDigit(s[0]) && IsDigit(s[1]) && IsDigit(s[2]) && IsDigit(s[3])
    && IsDigit(s[5]) && IsDigit(s[6]) && IsDigit(s[8]) && IsDigit(s[9])
  }

  /** parseDateString on the `yyyy-MM-dd` form: the date it names, or None
      (an Invalid Date) when the text is not such a date. */
  function ParseDateString(s: string): (r: Option<Date>)
    ensures r.Some? ==> DateShaped(s)
  {
    if DateShaped(s) then
      var year := 1000 * DigitValue(s[0]) + 100 * DigitValue(s[1]) + 10 * DigitValue(s[2]) + DigitValue(s[3]);
      var month := 10 * DigitValue(s[5]) + DigitValue(s[6]);
      var day := 10 * DigitValue(s[8]) + DigitValue(s[9]);
      var ymd := YMD(year, month, day);
      if ValidDate(ymd) then var d: Date := ymd; Some(d) else None
    else None
  }

  /** getInstanceKey: the key of one occurrence of a chore: the chore id,
      an underscore, and the date in the `yyyy-MM-dd` shape. */
  function GetInstanceKey(choreId: string, d: Date): (k: string)
    ensures |k| >= |choreId| + 11
    ensures k[..|choreId|] == choreId && k[|choreId|] == '_' && k[|choreId| + 1..] == FormatDateISO(d)
    ensures EraYear(d.year) <= 9999 ==> |k| == |choreId| + 11 && DateShaped(k[|choreId| + 1..])
  {
    choreId + "_" + FormatDateISO(d)
  }

  // ----- Lemmas -----

  /** A number below 10000 written with four digits, digit by digit. */
  lemma FourDigits(n: nat)
    requires n < 10000
    ensures Digits(n, 4) == [DigitChar(n / 1000), DigitChar(n / 100 % 10), DigitChar(n / 10 % 10), DigitChar(n % 10)]
  {
    var n1, n2, n3 := n / 10, n / 100, n / 1000;
    assert n1 / 10 == n2 && n2 / 10 == n3 && n3 < 10 by {
      DivTen(n);
      DivTen(n1);
    }
    assert Digits(n3, 1) == [DigitChar(n3)];
    assert Digits(n2, 2) == Digits(n3, 1) + [DigitChar(n2 % 10)];
    assert Digits(n1, 3) == Digits(n2, 2) + [DigitChar(n1 % 10)];
    assert Digits(n, 4) == Digits(n1, 3) + [DigitChar(n % 10)];
  }

  /** A number below 100 written with two digits. */
  lemma TwoDigits(n: nat)
    requires n < 100
    ensures Digits(n, 2) == [DigitChar(n / 10), DigitChar(n % 10)]
  {
  }

  lemma DivTen(n: nat)
    ensures n / 10 / 10 == n / 100
  {
    var q, r := n / 100, n % 100;
    assert n == 100 * q + r && 0 <= r < 100;
    var s, t := r / 10, r % 10;
    assert r == 10 * s + t && 0 <= s < 10 && 0 <= t < 10;
    assert n == 10 * (10 * q + s) + t;
  }

  /** The ten characters of the key of a date with a four-digit year. */
  lemma FormatChars(d: Date)
    requires 1 <= d.year <= 9999
    ensures FormatDateISO(d)
         == [DigitChar(d.year / 1000), DigitChar(d.year / 100 % 10), DigitChar(d.year / 10 % 10), DigitChar(d.year % 10), '-',
             DigitChar(d.month / 10), DigitChar(d.month % 10), '-', DigitChar(d.day / 10), DigitChar(d.day % 10)]
  {
    FourDigits(d.year);
    TwoDigits(d.month);
    TwoDigits(d.day);
  }

  /** Four digits read back give the number they were written from. */
  lemma FourDigitsValue(n: nat)
    requires n < 10000
    ensures 1000 * (n / 1000) + 100 * (n / 100 % 10) + 10 * (n / 10 % 10) + n % 10 == n
  {
    DivTen(n);
    DivTen(n / 10);
  }

  /** Parsing a formatted date gives the date back (four-digit years). */
  lemma ParseFormatRoundTrip(d: Date)
    requires 1 <= d.year <= 9999
    ensures ParseDateString(FormatDateISO(d)) == Some(d)
  {
    FormatChars(d);
    var s := FormatDateISO(d);
    var y := d.year;
    DigitRoundTrip(y / 1000);
    DigitRoundTrip(y / 100 % 10);
    DigitRoundTrip(y / 10 % 10);
    DigitRoundTrip(y % 10);
    DigitRoundTrip(d.month / 10);
    DigitRoundTrip(d.month % 10);
    DigitRoundTrip(d.day / 10);
    DigitRoundTrip(d.day % 10);
    FourDigitsValue(y);
  }

  /** Formatting is injective on dates with four-digit years, so distinct
      occurrence dates have distinct keys. */
  lemma FormatInjective(a: Date, b: Date)
    requires 1 <= a.year <= 9999 && 1 <= b.year <= 9999
    requires FormatDateISO(a) == FormatDateISO(b)
    ensures a == b
  {
    ParseFormatRoundTrip(a);
    ParseFormatRoundTrip(b);
  }

  /** Four digits make a number whose digits they are. */
  lemma DigitsOfFour(a: nat, b: nat, c: nat, e: nat)
    requires a < 10 && b < 10 && c < 10 && e < 10
    ensures var n := 1000 * a + 100 * b + 10 * c + e;
      n / 1000 == a && n / 100 % 10 == b && n / 10 % 10 == c && n % 10 == e
  {
    var n := 1000 * a + 100 * b + 10 * c + e;
    assert n == 10 * (100 * a + 10 * b + c) + e;
    assert n / 10 == 100 * a + 10 * b + c;
    assert n / 10 == 10 * (10 * a + b) + c;
    DivTen(n);
    assert n / 100 == 10 * a + b;
    assert n / 100 / 10 == a;
    assert n / 1000 == n / 100 / 10 by {
      var q, r := n / 1000, n % 1000;
      assert n == 1000 * q + r && 0 <= r < 1000;
      assert n == 100 * (10 * q + r / 100) + r % 100;
    }
  }

  /** Conversely, every text that parses to a date of year 1 or later is that
      date's canonical key. */
  lemma ParseIsCanonical(s: string)
    requires ParseDateString(s).Some? && ParseDateString(s).value.year >= 1
    ensures FormatDateISO(ParseDateString(s).value) == s
  {
    var d := ParseDateString(s).value;
    var a, b, c, e := DigitValue(s[0]), DigitValue(s[1]), DigitValue(s[2]), DigitValue(s[3]);
    DigitsOfFour(a, b, c, e);
    var m1, m2, d1, d2 := DigitValue(s[5]), DigitValue(s[6]), DigitValue(s[8]), DigitValue(s[9]);
    assert d.month / 10 == m1 && d.month % 10 == m2;
    assert d.day / 10 == d1 && d.day % 10 == d2;
    FormatChars(d);
    assert s == [s[0], s[1], s[2], s[3], s[4], s[5], s[6], s[7], s[8], s[9]];
  }

  /** Keys of one chore differ for distinct dates with four-digit years. */
  lemma InstanceKeyInjective(choreId: string, a: Date, b: Date)
    requires 1 <= a.year <= 9999 && 1 <= b.year <= 9999
    requires GetInstanceKey(choreId, a) == GetInstanceKey(choreId, b)
    ensures a == b
  {
    var ka, kb := GetInstanceKey(choreId, a), GetInstanceKey(choreId, b);
    assert ka[|choreId| + 1..] == FormatDateISO(a);
    assert kb[|choreId| + 1..] == FormatDateISO(b);
    FormatInjective(a, b);
  }

  /** The era-year rule makes year 0 and year 1 share their keys. */
  lemma YearZeroSharesKeyWithYearOne()
    ensures FormatDateISO(YMD(0, 3, 1)) == FormatDateISO(YMD(1, 3, 1)) == "0001-03-01"
  {
  }
}
