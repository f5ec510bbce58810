/**
 * `Katetime`: the older timestamp layouts, `A01123-0456-0789` for file names
 * and URLs and `A0~11/23 04:56:07` for people, with the date part, the time
 * part or both. The datetime arrives in local time.
 */
module Datetime {
  import opened Utf8
  import opened Decimal
  import opened Calendar
  import Time

  /** Which parts `generate` writes, and whether in the layout safe for file names and URLs. */
  datatype Katetime = Katetime(showDate: bool, showTime: bool, urlSafe: bool)

  /** A digit of radix 36 as radix_fmt writes it: `0`-`9`, then letters, upper case in the `{:#}` form. */
  function Radix36(v: nat, upper: bool): char
    requires v < 36
  {
    if v < 10 then DigitChar(v) else ((if upper then 'A' else 'a') as int + (v - 10)) as char
  }

  /** A radix-36 digit reads back as its value, and a letter is upper case exactly in the `{:#}` form. */
  lemma Radix36Reads(v: nat, upper: bool)
    requires v < 36
    ensures Radix36Value(Radix36(v, upper)) == v
    ensures v >= 10 ==> ('A' <= Radix36(v, upper) <= 'Z' <==> upper)
  {
  }

  /** The value of a radix-36 digit, read in either case, as `u32::from_str_radix(_, 36)` reads it; -1 otherwise. */
  function Radix36Value(c: char): int {
    if '0' <= c <= '9' then c as int - '0' as int
    else if 'a' <= c <= 'z' then c as int - 'a' as int + 10
    else if 'A' <= c <= 'Z' then c as int - 'A' as int + 10
    else -1
  }

  /**
   * The year code: the decade within the 200-year period from 2022 as a
   * letter, upper case from 2022 on, then the last digit of the offset.
   */
  function YearCode(year: int): (code: string)
    ensures |code| == 2 && code[1] == DigitChar(Time.YearOffset(year) % 10)
    ensures code[0] as int == (if year >= 2022 then 'A' else 'a') as int + Time.YearOffset(year) / 10
  {
    var yr := year - 2022;
    if yr < 0 then [Radix36(yr % 200 / 10 + 10, false), DigitChar(yr % 10)]
    else [Radix36(yr % 200 / 10 + 10, true), DigitChar(yr % 10)]
  }

  /** `%m%d`, or `~%m/%d` in the human layout. */
  function MonthDay(k: Katetime, dt: DateTime): string
    requires InRange(dt)
  {
    if k.urlSafe then Two(dt.month) + Two(dt.day) else "~" + Two(dt.month) + "/" + Two(dt.day)
  }

  /** Between the date and the time, when both are shown. */
  function Separator(k: Katetime): string {
    if k.urlSafe then "-" else " "
  }

  /** `%H%M-%S` and the hundredths, or `%H:%M:%S` in the human layout. */
  function Clock(k: Katetime, dt: DateTime): string
    requires InRange(dt)
  {
    if k.urlSafe then Two(dt.hour) + Two(dt.minute) + "-" + Two(dt.second) + Two(Millisecond(dt) / 10)
    else Two(dt.hour) + ":" + Two(dt.minute) + ":" + Two(dt.second)
  }

  /** How long the text of each layout is. */
  function Width(k: Katetime): nat {
    var date := if k.showDate then (if k.urlSafe then 6 else 8) else 0;
    var clock := if k.showTime then (if k.urlSafe then 9 else 8) else 0;
    date + (if k.showDate && k.showTime then 1 else 0) + clock
  }

  /** `Katetime::generate`. */
  function Generate(k: Katetime, dt: DateTime): (s: string)
    requires InRange(dt)
    ensures s == [] <==> !k.showDate && !k.showTime
    ensures |s| == Width(k)
  {
    if !k.showDate && !k.showTime then []
    else
      var date := if k.showDate then YearCode(dt.year) + MonthDay(k, dt) + (if k.showTime then Separator(k) else [])
                  else [];
      var clock := if k.showTime then Clock(k, dt) else [];
      date + clock
  }

  //------------------------------------------------------------------------------
  // Properties

  /** With both parts shown, the text is the date alone, the separator, and the time alone. */
  lemma Separated(k: Katetime, dt: DateTime)
    requires InRange(dt) && k.showDate && k.showTime
    ensures Generate(k, dt) == Generate(k.(showTime := false), dt) + Separator(k) + Generate(k.(showDate := false), dt)
  {
  }

  /** With both parts shown, each part alone is the text before or after the separator. */
  lemma PartsOfBoth(k: Katetime, dt: DateTime)
    requires InRange(dt) && k.showDate && k.showTime
    ensures var both, w := Generate(k, dt), if k.urlSafe then 6 else 8;
      && |both| > w && both[w..w + 1] == Separator(k)
      && Generate(k.(showTime := false), dt) == both[..w]
      && Generate(k.(showDate := false), dt) == both[w + 1..]
  {
    Separated(k, dt);
    var d, t := Generate(k.(showTime := false), dt), Generate(k.(showDate := false), dt);
    assert |d| == (if k.urlSafe then 6 else 8);
    var both := Generate(k, dt);
    assert both == d + Separator(k) + t;
    assert both[..|d|] == d;
    assert both[|d| + 1..] == t;
  }

  /** The URL-safe date alone and time alone are the two halves of the `of` stamp around its first `-`. */
  lemma UrlSafeParts(dt: DateTime)
    requires InRange(dt)
    ensures Generate(Katetime(true, false, true), dt) == [YearCode(dt.year)[0]] + Time.AfterLetter(dt)[..5]
    ensures Generate(Katetime(false, true, true), dt) == Time.AfterLetter(dt)[6..]
  {
    var k := Katetime(true, true, true);
    PartsOfBoth(k, dt);
    UrlSafeText(dt);
    var both, a := Generate(k, dt), Time.AfterLetter(dt);
    var d, d' := both[..6], [YearCode(dt.year)[0]] + a[..5];
    forall i | 0 <= i < 6
      ensures d[i] == d'[i]
    {
    }
    var t, t' := both[7..], a[6..];
    forall i | 0 <= i < 9
      ensures t[i] == t'[i]
    {
    }
  }

  /** The code moves with whole periods of 200 years, as long as the year stays on the same side of 2022. */
  lemma Periodic(k: Katetime, dt: DateTime, n: int)
    requires InRange(dt) && (dt.year >= 2022 <==> dt.year + 200 * n >= 2022)
    ensures Generate(k, dt.(year := dt.year + 200 * n)) == Generate(k, dt)
  {
    Time.ShiftOffset(dt.year, n);
    assert YearCode(dt.year + 200 * n) == YearCode(dt.year);
  }

  /** The URL-safe date and time is its letter and then the same text as after the letter of the `of` stamp. */
  lemma UrlSafeText(dt: DateTime)
    requires InRange(dt)
    ensures Generate(Katetime(true, true, true), dt) == [YearCode(dt.year)[0]] + Time.AfterLetter(dt)
  {
    var u, t := Generate(Katetime(true, true, true), dt), [YearCode(dt.year)[0]] + Time.AfterLetter(dt);
    forall i | 0 <= i < Time.STAMP_LEN
      ensures u[i] == t[i]
    {
    }
  }

  /**
   * The URL-safe date and time is the `of` stamp with the letter's case
   * decided differently: it is the same text exactly outside the years 1 to 2021.
   */
  lemma UrlSafeMatchesOf(dt: DateTime)
    requires InRange(dt)
    ensures var u, o := Generate(Katetime(true, true, true), dt), Time.Of(dt);
      u[1..] == o[1..] && (u == o <==> !(0 < dt.year < 2022))
  {
    var u, o := Generate(Katetime(true, true, true), dt), Time.Of(dt);
    UrlSafeText(dt);
    Time.OfText(dt);
    assert u[1..] == Time.AfterLetter(dt) == o[1..];
    assert u[0] == o[0] <==> !(0 < dt.year < 2022);
  }

  /**
   * The human layout: the year code, `~`, month, `/`, day, a space, then
   * hour, minute and second between colons; every field reads back as its value.
   */
  lemma HumanFields(dt: DateTime)
    requires InRange(dt)
    ensures var h := Generate(Katetime(true, true, false), dt);
      && |h| == 17 && h[..2] == YearCode(dt.year)
      && h[2] == '~' && h[5] == '/' && h[8] == ' ' && h[11] == ':' && h[14] == ':'
      && IsDigit(h[3]) && IsDigit(h[4]) && ReadTwo(h, 3) == dt.month
      && IsDigit(h[6]) && IsDigit(h[7]) && ReadTwo(h, 6) == dt.day
      && IsDigit(h[9]) && IsDigit(h[10]) && ReadTwo(h, 9) == dt.hour
      && IsDigit(h[12]) && IsDigit(h[13]) && ReadTwo(h, 12) == dt.minute
      && IsDigit(h[15]) && IsDigit(h[16]) && ReadTwo(h, 15) == dt.second
  {
  }

  /** The clock of the source's examples, 11-23 04:56:07.890, in a given year. */
  function ExampleAt(year: int): (dt: DateTime)
    ensures InRange(dt)
  {
    DateTime(year, 11, 23, 4, 56, 7, 890_000_000)
  }

  /** Both layouts of the example datetime, whatever the year. */
  lemma ExampleLayouts(year: int)
    ensures Generate(Katetime(true, true, true), ExampleAt(year)) == YearCode(year) + "1123-0456-0789"
    ensures Generate(Katetime(true, true, false), ExampleAt(year)) == YearCode(year) + "~11/23 04:56:07"
  {
    ExampleUrlSafe(year);
    ExampleHuman(year);
  }

  lemma ExampleUrlSafe(year: int)
    ensures Generate(Katetime(true, true, true), ExampleAt(year)) == YearCode(year) + "1123-0456-0789"
  {
    var dt := ExampleAt(year);
    assert Millisecond(dt) / 10 == 89;
    var u, u' := Generate(Katetime(true, true, true), dt), YearCode(year) + "1123-0456-0789";
    forall i | 0 <= i < |u|
      ensures u[i] == u'[i]
    {
    }
  }

  lemma ExampleHuman(year: int)
    ensures Generate(Katetime(true, true, false), ExampleAt(year)) == YearCode(year) + "~11/23 04:56:07"
  {
    var dt := ExampleAt(year);
    var h, h' := Generate(Katetime(true, true, false), dt), YearCode(year) + "~11/23 04:56:07";
    forall i | 0 <= i < |h|
      ensures h[i] == h'[i]
    {
    }
  }

  /** The year codes of the source's examples before 2022, in lower case. */
  lemma EarlyCodes()
    ensures YearCode(1970) == "o8" && YearCode(2000) == "r8" && YearCode(2010) == "s8" && YearCode(2021) == "t9"
  {
  }

  /** The year codes of the source's examples from 2022 on, with 2222 back at `A0`. */
  lemma LateCodes()
    ensures YearCode(2022) == "A0" && YearCode(2033) == "B1" && YearCode(2221) == "T9" && YearCode(2222) == "A0"
  {
  }

  /** Both layouts of the example datetime in a year with a known code. */
  lemma ExampleYear(year: int, c0: char, c1: char)
    requires YearCode(year) == [c0, c1]
    ensures Generate(Katetime(true, true, true), ExampleAt(year))
         == [c0, c1, '1', '1', '2', '3', '-', '0', '4', '5', '6', '-', '0', '7', '8', '9']
    ensures Generate(Katetime(true, true, false), ExampleAt(year))
         == [c0, c1, '~', '1', '1', '/', '2', '3', ' ', '0', '4', ':', '5', '6', ':', '0', '7']
  {
    ExampleLayouts(year);
    var u, u' := YearCode(year) + "1123-0456-0789", [c0, c1, '1', '1', '2', '3', '-', '0', '4', '5', '6', '-', '0', '7', '8', '9'];
    var h, h' := YearCode(year) + "~11/23 04:56:07", [c0, c1, '~', '1', '1', '/', '2', '3', ' ', '0', '4', ':', '5', '6', ':', '0', '7'];
    forall i | 0 <= i < |u|
      ensures u[i] == u'[i]
    {
    }
    forall i | 0 <= i < |h|
      ensures h[i] == h'[i]
    {
    }
  }

  /** The source's examples before 2022. */
  lemma EarlyExamples()
    ensures Generate(Katetime(true, true, true), ExampleAt(1970)) == "o81123-0456-0789"
    ensures Generate(Katetime(true, true, false), ExampleAt(1970)) == "o8~11/23 04:56:07"
    ensures Generate(Katetime(true, true, true), ExampleAt(2000)) == "r81123-0456-0789"
    ensures Generate(Katetime(true, true, false), ExampleAt(2000)) == "r8~11/23 04:56:07"
    ensures Generate(Katetime(true, true, true), ExampleAt(2010)) == "s81123-0456-0789"
    ensures Generate(Katetime(true, true, false), ExampleAt(2010)) == "s8~11/23 04:56:07"
    ensures Generate(Katetime(true, true, true), ExampleAt(2021)) == "t91123-0456-0789"
    ensures Generate(Katetime(true, true, false), ExampleAt(2021)) == "t9~11/23 04:56:07"
  {
    EarlyCodes();
    ExampleYear(1970, 'o', '8');
    ExampleYear(2000, 'r', '8');
    ExampleYear(2010, 's', '8');
    ExampleYear(2021, 't', '9');
  }

  /** The source's examples from 2022 on. */
  lemma LateExamples()
    ensures Generate(Katetime(true, true, true), ExampleAt(2022)) == "A01123-0456-0789"
    ensures Generate(Katetime(true, true, false), ExampleAt(2022)) == "A0~11/23 04:56:07"
    ensures Generate(Katetime(true, true, true), ExampleAt(2033)) == "B11123-0456-0789"
    ensures Generate(Katetime(true, true, false), ExampleAt(2033)) == "B1~11/23 04:56:07"
    ensures Generate(Katetime(true, true, true), ExampleAt(2221)) == "T91123-0456-0789"
    ensures Generate(Katetime(true, true, false), ExampleAt(2221)) == "T9~11/23 04:56:07"
    ensures Generate(Katetime(true, true, true), ExampleAt(2222)) == "A01123-0456-0789"
    ensures Generate(Katetime(true, true, false), ExampleAt(2222)) == "A0~11/23 04:56:07"
  {
    LateCodes();
    ExampleYear(2022, 'A', '0');
    ExampleYear(2033, 'B', '1');
    ExampleYear(2221, 'T', '9');
    ExampleYear(2222, 'A', '0');
  }
}
