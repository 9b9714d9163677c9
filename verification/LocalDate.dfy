/** Local dates as zero-padded ISO strings (src/main/daily-start-scheduler.ts:26-64).  The program validates them,
    adds days to them and compares them with `<` and `<=`, the code-unit order of JavaScript strings. */
module LocalDate {
  import opened Common
  import opened Numerals
  import opened Calendar

  // ---------------------------------------------------------------- decimal numerals

  function Pow10(k: nat): (r: nat)
    ensures r >= 1
  {
    if k == 0 then 1 else 10 * Pow10(k - 1)
  }

  /** The `k` lowest decimal digits of `n`. */
  function Digits(n: nat, k: nat): (s: string)
    ensures |s| == k
  {
    if k == 0 then "" else Digits(n / 10, k - 1) + [Digit(n % 10)]
  }

  predicate IsDigits(s: string) { forall i :: 0 <= i < |s| ==> '0' <= s[i] <= '9' }

  function Number(s: string): nat
    requires IsDigits(s)
    decreases |s|
  {
    if s == "" then 0 else 10 * Number(s[..|s| - 1]) + (s[|s| - 1] as int - '0' as int)
  }

  lemma {:induction false} DigitsNumber(n: nat, k: nat)
    requires n < Pow10(k)
    ensures IsDigits(Digits(n, k)) && Number(Digits(n, k)) == n
  {
    if k > 0 {
      DigitsNumber(n / 10, k - 1);
      assert Digits(n, k)[..k - 1] == Digits(n / 10, k - 1);
    }
  }

  lemma {:induction false} NumberDigits(s: string)
    requires IsDigits(s)
    ensures Number(s) < Pow10(|s|) && Digits(Number(s), |s|) == s
    decreases |s|
  {
    if s != "" {
      NumberDigits(s[..|s| - 1]);
      assert s == s[..|s| - 1] + [s[|s| - 1]];
    }
  }

  // ---------------------------------------------------------------- string order

  /** `a < b` on strings. */
  predicate Less(a: string, b: string)
    decreases |a|
  {
    b != "" && (a == "" || a[0] < b[0] || (a[0] == b[0] && Less(a[1..], b[1..])))
  }

  lemma {:induction false} LessAppend(a: string, b: string, x: string, y: string)
    requires |a| == |b|
    ensures Less(a + x, b + y) <==> Less(a, b) || (a == b && Less(x, y))
    decreases |a|
  {
    if a == "" {
      assert a + x == x && b + y == y;
    } else {
      assert (a + x)[1..] == a[1..] + x && (b + y)[1..] == b[1..] + y;
      LessAppend(a[1..], b[1..], x, y);
    }
  }

  lemma LessOne(c: char, d: char)
    ensures Less([c], [d]) <==> c < d
  {}

  /** Padded numerals of one width are ordered like the numbers. */
  lemma {:induction false} DigitsOrder(m: nat, n: nat, k: nat)
    requires m < Pow10(k) && n < Pow10(k)
    ensures Less(Digits(m, k), Digits(n, k)) <==> m < n
    ensures Digits(m, k) == Digits(n, k) <==> m == n
  {
    DigitsNumber(m, k);
    DigitsNumber(n, k);
    if k > 0 {
      DigitsOrder(m / 10, n / 10, k - 1);
      LessAppend(Digits(m / 10, k - 1), Digits(n / 10, k - 1), [Digit(m % 10)], [Digit(n % 10)]);
      LessOne(Digit(m % 10), Digit(n % 10));
    }
  }

  // ---------------------------------------------------------------- dates as strings

  /** At least four characters, zeros in front; the sign of a year before zero counts as one. */
  function FormatYear(y: int): string {
    if 0 <= y < 10000 then Digits(y, 4)
    else if y >= 0 then Decimal(y)
    else
      var text := ['-'] + Decimal(-y);
      if |text| == 2 then "00" + text else if |text| == 3 then "0" + text else text
  }

  function Join(a: string, b: string): string { a + "-" + b }

  /** `formatLocalDate`; years are written out in full once four digits no longer do. */
  function Format(c: Civil): string
    requires Valid(c)
  {
    Join(Join(FormatYear(c.year), Digits(c.month, 2)), Digits(c.day, 2))
  }

  predicate Shape(s: string) {
    |s| == 10 && IsDigits(s[..4]) && s[4] == '-' && IsDigits(s[5..7]) && s[7] == '-' && IsDigits(s[8..])
  }

  /** `parseLocalDate`: the numbers go through the calendar's carrying arithmetic and must come back unchanged. */
  function Parse(s: string): Option<Civil> {
    if !Shape(s) then None
    else
      var c := Civil(Number(s[..4]), Number(s[5..7]), Number(s[8..]));
      if c.year < 1000 || CivilOf(MakeDay(c.year, c.month - 1, c.day)) != c then None else Some(c)
  }

  predicate IsValid(s: string) { Parse(s).Some? }

  function Day(s: string): int
    requires IsValid(s)
  {
    DayNumber(Parse(s).value)
  }

  predicate FourDigitYear(c: Civil) { Valid(c) && 1000 <= c.year < 10000 }

  lemma Powers()
    ensures Pow10(2) == 100 && Pow10(4) == 10000
  {
    assert Pow10(2) == 10 * (10 * Pow10(0));
    assert Pow10(4) == 10 * (10 * Pow10(2));
  }

  lemma MonthAndDayFit(c: Civil)
    requires Valid(c)
    ensures 0 <= c.month < 100 && 0 <= c.day < 100
  {}

  lemma Parts(c: Civil, s: string)
    requires FourDigitYear(c) && s == Format(c)
    ensures |s| == 10 && s[..4] == Digits(c.year, 4) && s[4] == '-' && s[5..7] == Digits(c.month, 2)
    ensures s[7] == '-' && s[8..] == Digits(c.day, 2)
  {}

  /** Formatting and parsing are inverse on dates with four-digit years from 1000 on. */
  lemma ParseFormat(c: Civil)
    requires FourDigitYear(c)
    ensures Parse(Format(c)) == Some(c)
  {
    hide CivilOf, MakeDay, Valid, Digits, Number;
    Powers();
    MonthAndDayFit(c);
    DigitsNumber(c.year, 4);
    DigitsNumber(c.month, 2);
    DigitsNumber(c.day, 2);
    Parts(c, Format(c));
    CivilRoundTrip(c);
    DayNumberIs(c);
  }

  lemma DayNumberIs(c: Civil)
    ensures DayNumber(c) == MakeDay(c.year, c.month - 1, c.day)
  {}

  /** Exactly the strings that spell an existing date are accepted. */
  lemma FormatParse(s: string)
    requires IsValid(s)
    ensures FourDigitYear(Parse(s).value) && Format(Parse(s).value) == s
  {
    hide CivilOf, MakeDay, Number, Digits;
    var c := Parse(s).value;
    CivilOfIsValid(MakeDay(c.year, c.month - 1, c.day));
    Powers();
    NumberDigits(s[..4]);
    NumberDigits(s[5..7]);
    NumberDigits(s[8..]);
    assert s == Join(Join(s[..4], s[5..7]), s[8..]);
  }

  /** String order on valid dates is chronological order. */
  lemma OrderIsChronological(a: string, b: string)
    requires IsValid(a) && IsValid(b)
    ensures Less(a, b) <==> Day(a) < Day(b)
    ensures a == b <==> Day(a) == Day(b)
  {
    hide CivilOf, MakeDay, Number, Digits, Parse, Less, Valid;
    FormatParse(a);
    FormatParse(b);
    var c, d := Parse(a).value, Parse(b).value;
    Powers();
    MonthAndDayFit(c);
    MonthAndDayFit(d);
    DigitsOrder(c.year, d.year, 4);
    DigitsOrder(c.month, d.month, 2);
    DigitsOrder(c.day, d.day, 2);
    Lexicographic(Digits(c.year, 4), Digits(c.month, 2), Digits(c.day, 2),
                  Digits(d.year, 4), Digits(d.month, 2), Digits(d.day, 2));
    DayNumberOrders(c, d);
    DayNumberOrders(d, c);
  }

  lemma Lexicographic(y: string, m: string, d: string, y': string, m': string, d': string)
    requires |y| == |y'| && |m| == |m'| && |d| == |d'|
    ensures Less(Join(Join(y, m), d), Join(Join(y', m'), d')) <==>
            Less(y, y') || (y == y' && (Less(m, m') || (m == m' && Less(d, d'))))
    ensures Join(Join(y, m), d) == Join(Join(y', m'), d') <==> y == y' && m == m' && d == d'
  {
    hide Less, Join;
    JoinOrder(Join(y, m), Join(y', m'), d, d') by { JoinOrder(y, y', m, m'); }
    JoinOrder(y, y', m, m');
  }

  lemma JoinOrder(a: string, b: string, x: string, y: string)
    requires |a| == |b| && |x| == |y|
    ensures |Join(a, x)| == |Join(b, y)|
    ensures Less(Join(a, x), Join(b, y)) <==> Less(a, b) || (a == b && Less(x, y))
    ensures Join(a, x) == Join(b, y) <==> a == b && x == y
  {
    LessAppend(a + "-", b + "-", x, y);
    LessAppend(a, b, "-", "-");
    LessOne('-', '-');
    Cancel(a, b, "-", "-");
    Cancel(a + "-", b + "-", x, y);
  }

  lemma Cancel(a: string, b: string, x: string, y: string)
    requires |a| == |b|
    ensures a + x == b + y <==> a == b && x == y
  {
    if a + x == b + y {
      assert a == (a + x)[..|a|] && b == (b + y)[..|b|];
      assert x == (a + x)[|a|..] && y == (b + y)[|b|..];
    }
  }
}
