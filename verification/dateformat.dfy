/** The 8-byte contract start field: `strftime("%Y%m%d")` when dumping,
    `strptime(..., '%Y%m%d')` when loading. */
module DateFormat {
  import opened Packing
  import opened Results
  import opened Calendar

  /** Width of the `8s` date field. */
  const DateWidth: nat := 8

  const Space: uint8 := 0x20

  predicate IsDigit(b: uint8) {
    0x30 <= b <= 0x39
  }

  function DigitValue(b: uint8): (n: int)
    requires IsDigit(b)
    ensures 0 <= n <= 9
  {
    b - 0x30
  }

  function Digit(n: int): (b: uint8)
    requires 0 <= n <= 9
    ensures IsDigit(b) && DigitValue(b) == n
  {
    0x30 + n
  }

  /** `%Y%m%d` with the year zero-padded to four digits. */
  function FormatDate(d: CalendarDate): (s: seq<uint8>)
    ensures |s| == DateWidth
    ensures forall i :: 0 <= i < |s| ==> IsDigit(s[i])
  {
    [ Digit(d.year / 1000), Digit(d.year / 100 % 10), Digit(d.year / 10 % 10), Digit(d.year % 10),
      Digit(d.month / 10), Digit(d.month % 10),
      Digit(d.day / 10), Digit(d.day % 10) ]
  }

  /** What the `%m` pattern `1[0-2]|0[1-9]|[1-9]` matches when it has to
      cover two characters. */
  predicate IsMonthText(a: uint8, b: uint8) {
    || (a == 0x31 && 0x30 <= b <= 0x32)
    || (a == 0x30 && 0x31 <= b <= 0x39)
  }

  /** What the `%d` pattern `3[01]|[12]\d|0[1-9]|[1-9]| [1-9]` matches when
      it has to cover two characters; note the space-padded form. */
  predicate IsDayText(a: uint8, b: uint8) {
    || (a == 0x33 && 0x30 <= b <= 0x31)
    || ((a == 0x31 || a == 0x32) && IsDigit(b))
    || (a == 0x30 && 0x31 <= b <= 0x39)
    || (a == Space && 0x31 <= b <= 0x39)
  }

  /** `int()` of a two-character match; a leading space counts as nothing. */
  function TwoCharValue(a: uint8, b: uint8): int
    requires IsDigit(a) || a == Space
    requires IsDigit(b)
  {
    (if a == Space then 0 else DigitValue(a)) * 10 + DigitValue(b)
  }

  /** `strptime(s.decode('ascii'), '%Y%m%d').date()` on the 8 bytes of the
      field: four digits of year, two characters of month, two of day, the
      whole field consumed, and a day that exists in that month of a year
      from 1 to 9999. Anything else raises `ValueError` (`None` here). */
  function ParseDate(s: seq<uint8>): (r: Option<CalendarDate>)
    requires |s| == DateWidth
    ensures r.Some? ==> forall i :: 0 <= i < DateWidth ==> IsDigit(s[i]) || (i == 6 && s[i] == Space)
    ensures r.Some? ==> 1 <= r.value.year
  {
    if !(IsDigit(s[0]) && IsDigit(s[1]) && IsDigit(s[2]) && IsDigit(s[3])) then None
    else if !IsMonthText(s[4], s[5]) || !IsDayText(s[6], s[7]) then None
    else
      var y := 1000 * DigitValue(s[0]) + 100 * DigitValue(s[1]) + 10 * DigitValue(s[2]) + DigitValue(s[3]);
      var d := Date(y, TwoCharValue(s[4], s[5]), TwoCharValue(s[6], s[7]));
      if IsValidDate(d) then Some(d) else None
  }

  /** Division by ten, a hundred and a thousand of a value written as
      quotient and remainder. */
  lemma DivTen(q: int, r: int)
    requires 0 <= r < 10
    ensures (10 * q + r) / 10 == q && (10 * q + r) % 10 == r
  {
  }

  lemma DivHundred(q: int, r: int)
    requires 0 <= r < 100
    ensures (100 * q + r) / 100 == q
  {
  }

  lemma DivThousand(q: int, r: int)
    requires 0 <= r < 1000
    ensures (1000 * q + r) / 1000 == q
  {
  }

  lemma FourDigits(y: int)
    requires 0 <= y <= 9999
    ensures 1000 * (y / 1000) + 100 * (y / 100 % 10) + 10 * (y / 10 % 10) + y % 10 == y
  {
    var a, b, c, e := y / 1000, y / 100 % 10, y / 10 % 10, y % 10;
    assert y == 10 * (y / 10) + e;
    assert y / 10 == 10 * (y / 100) + c by {
      assert y / 100 == y / 10 / 10;
    }
    assert y / 100 == 10 * a + b by {
      assert y / 1000 == y / 100 / 10;
    }
  }

  lemma TwoDigits(n: int)
    requires 0 <= n <= 99
    ensures 10 * (n / 10) + n % 10 == n
  {
  }

  /** Every date's text parses back to that date. */
  lemma ParseFormatDate(d: CalendarDate)
    ensures ParseDate(FormatDate(d)) == Some(d)
  {
    var s := FormatDate(d);
    FourDigits(d.year);
    TwoDigits(d.month);
    TwoDigits(d.day);
    assert IsMonthText(s[4], s[5]);
    assert IsDayText(s[6], s[7]);
    assert TwoCharValue(s[4], s[5]) == d.month;
    assert TwoCharValue(s[6], s[7]) == d.day;
  }

  lemma SplitFourDigits(a: int, b: int, c: int, e: int)
    requires 0 <= a <= 9 && 0 <= b <= 9 && 0 <= c <= 9 && 0 <= e <= 9
    ensures var y := 1000 * a + 100 * b + 10 * c + e;
      y / 1000 == a && y / 100 % 10 == b && y / 10 % 10 == c && y % 10 == e
  {
    var y := 1000 * a + 100 * b + 10 * c + e;
    DivThousand(a, 100 * b + 10 * c + e);
    DivHundred(10 * a + b, 10 * c + e);
    DivTen(a, b);
    DivTen(100 * a + 10 * b + c, e);
    DivTen(10 * a + b, c);
  }

  lemma SplitTwoDigits(a: int, b: int)
    requires 0 <= a <= 9 && 0 <= b <= 9
    ensures (10 * a + b) / 10 == a && (10 * a + b) % 10 == b
  {
  }

  /** A field that parses is the text of the parsed date, except that a
      space may stand for the leading zero of the day. */
  lemma FormatParseDate(s: seq<uint8>)
    requires |s| == DateWidth && ParseDate(s).Some?
    ensures FormatDate(ParseDate(s).value) == (if s[6] == Space then s[6 := 0x30] else s)
  {
    var d := ParseDate(s).value;
    var u := if s[6] == Space then s[6 := 0x30] else s;
    SplitFourDigits(DigitValue(s[0]), DigitValue(s[1]), DigitValue(s[2]), DigitValue(s[3]));
    SplitTwoDigits(DigitValue(s[4]), DigitValue(s[5]));
    SplitTwoDigits(DigitValue(u[6]), DigitValue(s[7]));
    assert d.month == 10 * DigitValue(s[4]) + DigitValue(s[5]);
    assert d.day == 10 * DigitValue(u[6]) + DigitValue(s[7]);
    var t := FormatDate(d);
    assert t[0] == u[0] && t[1] == u[1] && t[2] == u[2] && t[3] == u[3];
    assert t[4] == u[4] && t[5] == u[5];
    assert t[6] == u[6] && t[7] == u[7];
    SameBytes(t, u);
  }

  /** Two date fields with the same eight bytes are equal. */
  lemma SameBytes(t: seq<uint8>, u: seq<uint8>)
    requires |t| == DateWidth && |u| == DateWidth
    requires t[0] == u[0] && t[1] == u[1] && t[2] == u[2] && t[3] == u[3]
    requires t[4] == u[4] && t[5] == u[5] && t[6] == u[6] && t[7] == u[7]
    ensures t == u
  {
    forall i | 0 <= i < DateWidth
      ensures t[i] == u[i]
    {
    }
  }

  /** A field that is not made of ASCII digits in the `%Y%m%d` shape with
      a real calendar day is rejected. */
  lemma ParseDateRejects(s: seq<uint8>)
    requires |s| == DateWidth
    requires exists i :: 0 <= i < DateWidth && i != 6 && !IsDigit(s[i])
    ensures ParseDate(s) == None
  {
  }
}
