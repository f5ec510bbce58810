/**
 * The flavoured timestamp `A01123-0456-0789` and its precise form
 * `A01123-0456-0789.0137`: a year code, month and day, hour and minute,
 * second and hundredths, and optionally four more digits of the fraction.
 * The datetime arrives already put into UTC+8.
 */
module Time {
  import opened Wrappers
  import opened Utf8
  import opened Decimal
  import opened Calendar

  const STAMP_LEN: nat := 16
  const PRECISE_LEN: nat := 21

  const DASH: byte := 0x2D
  const DOT: byte := 0x2E
  const UPPER_A: byte := 0x41
  const LOWER_A: byte := 0x61

  /** The year code counts years from 2022, with a period of 200 years (`rem_euclid`). */
  function YearOffset(year: int): (yy: nat)
    ensures yy < 200 && (year - 2022 - yy) % 200 == 0
  {
    (year - 2022) % 200
  }

  /** The first byte of a stamp: a letter for the decade within the period, upper case for positive years. */
  function YearLetter(year: int): (b: byte)
    ensures year > 0 ==> UPPER_A <= b < UPPER_A + 20
    ensures year <= 0 ==> LOWER_A <= b < LOWER_A + 20
  {
    ((if year > 0 then UPPER_A else LOWER_A) as int + YearOffset(year) / 10) as byte
  }

  /** What a stamp keeps of a datetime. */
  datatype Stamp = Stamp(upper: bool, yy: nat, month: nat, day: nat, hour: nat, minute: nat,
                         second: nat, centi: nat, frac: Option<nat>)

  /** The stamp of a datetime: year sign and offset, the fields, hundredths, and with `micro` the rest of the microseconds. */
  function Summary(dt: DateTime, micro: bool): Stamp {
    Stamp(dt.year > 0, YearOffset(dt.year), dt.month, dt.day, dt.hour, dt.minute, dt.second,
          Millisecond(dt) / 10, if micro then Some(Microsecond(dt) % 10000) else None)
  }

  /**
   * `format::<MICRO>`: writes the stamp byte by byte. Every byte is ASCII, so
   * the unchecked conversion to `str` that follows is sound.
   */
  function Format(dt: DateTime, micro: bool): (out: Bytes)
    requires InRange(dt)
    ensures |out| == if micro then PRECISE_LEN else STAMP_LEN
    ensures Ascii(out)
    ensures out[6] == DASH && out[11] == DASH && (micro ==> out[16] == DOT)
  {
    var yy := YearOffset(dt.year);
    var milli := Millisecond(dt) / 10;
    var stamp := [YearLetter(dt.year), DigitByte(yy % 10),
                  DigitByte(dt.month / 10), DigitByte(dt.month % 10),
                  DigitByte(dt.day / 10), DigitByte(dt.day % 10),
                  DASH,
                  DigitByte(dt.hour / 10), DigitByte(dt.hour % 10),
                  DigitByte(dt.minute / 10), DigitByte(dt.minute % 10),
                  DASH,
                  DigitByte(dt.second / 10), DigitByte(dt.second % 10),
                  DigitByte(milli / 10), DigitByte(milli % 10)];
    var out :=
      if micro then
        var m := Microsecond(dt) % 10000;
        var high, low := m / 100, m % 100;
        stamp + [DOT, DigitByte(high / 10), DigitByte(high % 10), DigitByte(low / 10), DigitByte(low % 10)]
      else stamp;
    out
  }

  /** `of`: the stamp as text. Its bytes are exactly the ones `format` wrote. */
  function Of(dt: DateTime): (s: string)
    requires InRange(dt)
    ensures |s| == STAMP_LEN && EncodeStr(s) == Format(dt, false)
    ensures s == Widen(Format(dt, false))
  {
    var out := Format(dt, false);
    AsciiText(out);
    EncodeDecodeStr(out);
    DecodeStr(out)
  }

  /** `precise_of`: the precise stamp as text. */
  function PreciseOf(dt: DateTime): (s: string)
    requires InRange(dt)
    ensures |s| == PRECISE_LEN && EncodeStr(s) == Format(dt, true)
    ensures s == Widen(Format(dt, true))
  {
    var out := Format(dt, true);
    AsciiText(out);
    EncodeDecodeStr(out);
    DecodeStr(out)
  }

  /** The stamp after its letter, as text: year digit, month, day, `-`, hour, minute, `-`, second, hundredths. */
  function AfterLetter(dt: DateTime): string
    requires InRange(dt)
  {
    [DigitChar(YearOffset(dt.year) % 10)] + Two(dt.month) + Two(dt.day) + "-" + Two(dt.hour) + Two(dt.minute) + "-"
    + Two(dt.second) + Two(Millisecond(dt) / 10)
  }

  /** The text of a stamp is its letter and then the two-digit fields with their separators. */
  lemma OfText(dt: DateTime)
    requires InRange(dt)
    ensures Of(dt) == [YearLetter(dt.year) as int as char] + AfterLetter(dt)
  {
    FormatText(dt);
  }

  lemma FormatText(dt: DateTime)
    requires InRange(dt)
    ensures Widen(Format(dt, false)) == [YearLetter(dt.year) as int as char] + AfterLetter(dt)
  {
    var o, t := Widen(Format(dt, false)), [YearLetter(dt.year) as int as char] + AfterLetter(dt);
    forall i | 0 <= i < STAMP_LEN
      ensures o[i] == t[i]
    {
    }
  }

  //------------------------------------------------------------------------------
  // Reading a stamp back

  predicate IsYearLetter(b: byte) {
    UPPER_A <= b < UPPER_A + 20 || LOWER_A <= b < LOWER_A + 20
  }

  /** Two digit bytes at `out[i..i + 2]`. */
  predicate DigitsAt(out: Bytes, i: nat) {
    i + 2 <= |out| && IsDigitByte(out[i]) && IsDigitByte(out[i + 1])
  }

  function TwoAt(out: Bytes, i: nat): nat
    requires DigitsAt(out, i)
  {
    10 * ByteValue(out[i]) + ByteValue(out[i + 1])
  }

  /** The layout of a stamp, with or without the precise tail. */
  predicate WellFormed(out: Bytes) {
    && (|out| == STAMP_LEN || (|out| == PRECISE_LEN && out[16] == DOT && DigitsAt(out, 17) && DigitsAt(out, 19)))
    && IsYearLetter(out[0]) && IsDigitByte(out[1])
    && DigitsAt(out, 2) && DigitsAt(out, 4) && out[6] == DASH
    && DigitsAt(out, 7) && DigitsAt(out, 9) && out[11] == DASH
    && DigitsAt(out, 12) && DigitsAt(out, 14)
  }

  /** The ranges the fields of a stamp keep to when it comes from an in-range datetime. */
  predicate Plausible(st: Stamp) {
    1 <= st.month <= 12 && 1 <= st.day <= 31 && st.hour < 24 && st.minute < 60 && st.second < 60
  }

  /** Reads a stamp back into what it keeps, or rejects it. */
  function Parse(out: Bytes): Option<Stamp> {
    if !WellFormed(out) then None
    else
      var upper := out[0] < LOWER_A;
      var decade := out[0] as int - (if upper then UPPER_A else LOWER_A) as int;
      var st := Stamp(upper, 10 * decade + ByteValue(out[1]),
                      TwoAt(out, 2), TwoAt(out, 4), TwoAt(out, 7), TwoAt(out, 9), TwoAt(out, 12),
                      TwoAt(out, 14),
                      if |out| == PRECISE_LEN then Some(100 * TwoAt(out, 17) + TwoAt(out, 19)) else None);
      if Plausible(st) then Some(st) else None
  }

  //------------------------------------------------------------------------------
  // Properties

  /** A stamp reads back as the summary of its datetime. */
  lemma ParseFormat(dt: DateTime, micro: bool)
    requires InRange(dt)
    ensures Parse(Format(dt, micro)) == Some(Summary(dt, micro))
  {
    var out := Format(dt, micro);
    var yy := YearOffset(dt.year);
    assert out[0] == YearLetter(dt.year) && ByteValue(out[1]) == yy % 10;
    assert TwoAt(out, 2) == dt.month && TwoAt(out, 4) == dt.day;
    assert TwoAt(out, 7) == dt.hour && TwoAt(out, 9) == dt.minute;
    assert TwoAt(out, 12) == dt.second && TwoAt(out, 14) == Millisecond(dt) / 10;
    if micro {
      var m := Microsecond(dt) % 10000;
      assert 100 * TwoAt(out, 17) + TwoAt(out, 19) == m;
    }
  }

  /** Two datetimes get the same stamp exactly when they have the same summary. */
  lemma SameStamp(a: DateTime, b: DateTime, micro: bool)
    requires InRange(a) && InRange(b)
    ensures Format(a, micro) == Format(b, micro) <==> Summary(a, micro) == Summary(b, micro)
  {
    ParseFormat(a, micro);
    ParseFormat(b, micro);
    if Summary(a, micro) == Summary(b, micro) {
      assert YearLetter(a.year) == YearLetter(b.year);
      assert Millisecond(a) / 10 == Millisecond(b) / 10;
    }
  }

  /** Moving a datetime by whole periods of 200 years keeps its stamp, as long as the year keeps its sign. */
  lemma Periodic(dt: DateTime, n: int, micro: bool)
    requires InRange(dt) && (dt.year > 0 <==> dt.year + 200 * n > 0)
    ensures Format(dt.(year := dt.year + 200 * n), micro) == Format(dt, micro)
  {
    var dt' := dt.(year := dt.year + 200 * n);
    ShiftOffset(dt.year, n);
    SameStamp(dt', dt, micro);
  }

  lemma ShiftOffset(year: int, n: int)
    ensures YearOffset(year + 200 * n) == YearOffset(year)
  {
    var x := year - 2022;
    assert x + 200 * n == 200 * (x / 200 + n) + x % 200;
  }

  /** The sign of the year shows in the case of the letter: 200 years apart across year 0, the stamps differ. */
  lemma SignShows(dt: DateTime, micro: bool)
    requires InRange(dt) && dt.year <= 0 < dt.year + 200
    ensures Format(dt.(year := dt.year + 200), micro) != Format(dt, micro)
  {
    assert Format(dt.(year := dt.year + 200), micro)[0] != Format(dt, micro)[0];
  }

  /** The precise stamp begins with the plain one. */
  lemma PreciseExtends(dt: DateTime)
    requires InRange(dt)
    ensures Format(dt, true)[..STAMP_LEN] == Format(dt, false)
    ensures PreciseOf(dt)[..STAMP_LEN] == Of(dt)
  {
    assert Format(dt, true)[..STAMP_LEN] == Format(dt, false);
  }

  /** The six digits after the second in the precise stamp are the microseconds. */
  lemma PreciseFraction(dt: DateTime)
    requires InRange(dt)
    ensures var st := Summary(dt, true); st.frac.Some? && st.centi * 10000 + st.frac.value == Microsecond(dt)
  {
    var n := dt.nanosecond;
    assert Millisecond(dt) / 10 == n / 10_000_000;
    assert Microsecond(dt) / 10000 == n / 10_000_000;
  }

  /** A datetime whose stamp is `st`: a positive year for upper case, one before year 1 for lower case. */
  function Witness(st: Stamp): DateTime {
    DateTime(if st.upper then 2022 + st.yy else st.yy - 378, st.month, st.day, st.hour, st.minute, st.second,
             st.centi * 10_000_000 + (if st.frac.Some? then st.frac.value * 1000 else 0))
  }

  /** Whatever `Parse` accepts is the stamp of an in-range datetime, written back byte for byte. */
  lemma ParseOnlyStamps(out: Bytes)
    requires Parse(out).Some?
    ensures var st := Parse(out).value; var micro := |out| == PRECISE_LEN;
      InRange(Witness(st)) && Summary(Witness(st), micro) == st && Format(Witness(st), micro) == out
  {
    var st := Parse(out).value;
    WitnessSummary(st);
    ParseFormat(Witness(st), st.frac.Some?);
    ParseInjective(Format(Witness(st), st.frac.Some?), out);
  }

  /** The witness of a plausible stamp is in range and has that stamp. */
  lemma WitnessSummary(st: Stamp)
    requires Plausible(st) && st.yy < 200 && st.centi < 100 && (st.frac.Some? ==> st.frac.value < 10000)
    ensures InRange(Witness(st)) && Summary(Witness(st), st.frac.Some?) == st
  {
    var dt := Witness(st);
    Fraction(st.centi, if st.frac.Some? then st.frac.value else 0);
    assert YearOffset(dt.year) == st.yy;
  }

  /** A stamp is determined by what it reads back as. */
  lemma ParseInjective(a: Bytes, b: Bytes)
    requires Parse(a).Some? && Parse(a) == Parse(b)
    ensures a == b
  {
    assert a[0] == b[0] && a[1] == b[1];
    DigitPair(a, 2); DigitPair(a, 4); DigitPair(a, 7); DigitPair(a, 9); DigitPair(a, 12); DigitPair(a, 14);
    DigitPair(b, 2); DigitPair(b, 4); DigitPair(b, 7); DigitPair(b, 9); DigitPair(b, 12); DigitPair(b, 14);
    if |a| == PRECISE_LEN {
      DigitPair(a, 17); DigitPair(a, 19); DigitPair(b, 17); DigitPair(b, 19);
      assert TwoAt(a, 17) == TwoAt(b, 17) && TwoAt(a, 19) == TwoAt(b, 19);
    }
    SameBytes(a, b);
  }

  /** Hundredths and the next four digits of the fraction make up the nanoseconds the witness carries. */
  lemma Fraction(centi: nat, frac: nat)
    requires centi < 100 && frac < 10000
    ensures var n := centi * 10_000_000 + frac * 1000;
      n < 1_000_000_000 && n / 1_000_000 / 10 == centi && n / 1000 % 10000 == frac
  {
    var n := centi * 10_000_000 + frac * 1000;
    assert n / 1000 == centi * 10000 + frac;
    assert n / 1_000_000 == centi * 10 + frac / 1000;
  }

  /** Stamps that agree at every position are equal. */
  lemma SameBytes(f: Bytes, out: Bytes)
    requires |f| == |out| && (|out| == STAMP_LEN || |out| == PRECISE_LEN)
    requires f[0] == out[0] && f[1] == out[1] && f[2] == out[2] && f[3] == out[3] && f[4] == out[4]
    requires f[5] == out[5] && f[6] == out[6] && f[7] == out[7] && f[8] == out[8] && f[9] == out[9]
    requires f[10] == out[10] && f[11] == out[11] && f[12] == out[12] && f[13] == out[13]
    requires f[14] == out[14] && f[15] == out[15]
    requires |out| == PRECISE_LEN ==>
      f[16] == out[16] && f[17] == out[17] && f[18] == out[18] && f[19] == out[19] && f[20] == out[20]
    ensures f == out
  {
    forall i | 0 <= i < |out|
      ensures f[i] == out[i]
    {
    }
  }

  /** A two-digit value is written back as the digits it was read from. */
  lemma DigitPair(out: Bytes, i: nat)
    requires DigitsAt(out, i)
    ensures DigitByte(TwoAt(out, i) / 10) == out[i] && DigitByte(TwoAt(out, i) % 10) == out[i + 1]
  {
  }

  /** The example from the source's test: 2025-01-28 23:04:00.001123 in UTC+8. */
  lemma PreciseOfExample()
    ensures PreciseOf(DateTime(2025, 1, 28, 23, 4, 0, 1_123_000)) == "A30128-2304-0000.1123"
  {
    var dt := DateTime(2025, 1, 28, 23, 4, 0, 1_123_000);
    var out := [0x41, 0x33, 0x30, 0x31, 0x32, 0x38, 0x2D, 0x32, 0x33, 0x30, 0x34, 0x2D,
                0x30, 0x30, 0x30, 0x30, 0x2E, 0x31, 0x31, 0x32, 0x33];
    ExampleBytes(dt, out);
    ExampleText(out);
  }

  lemma ExampleText(out: Bytes)
    requires out == [0x41, 0x33, 0x30, 0x31, 0x32, 0x38, 0x2D, 0x32, 0x33, 0x30, 0x34, 0x2D,
                     0x30, 0x30, 0x30, 0x30, 0x2E, 0x31, 0x31, 0x32, 0x33]
    ensures Ascii(out) && Widen(out) == "A30128-2304-0000.1123"
  {
    var s, lit := Widen(out), "A30128-2304-0000.1123";
    forall i | 0 <= i < PRECISE_LEN
      ensures s[i] == lit[i]
    {
    }
  }

  lemma ExampleBytes(dt: DateTime, out: Bytes)
    requires dt == DateTime(2025, 1, 28, 23, 4, 0, 1_123_000)
    requires out == [0x41, 0x33, 0x30, 0x31, 0x32, 0x38, 0x2D, 0x32, 0x33, 0x30, 0x34, 0x2D,
                     0x30, 0x30, 0x30, 0x30, 0x2E, 0x31, 0x31, 0x32, 0x33]
    ensures Format(dt, true) == out
  {
    var st := Stamp(true, 3, 1, 28, 23, 4, 0, 0, Some(1123));
    assert Summary(dt, true) == st;
    assert Parse(out) == Some(st);
    ParseFormat(dt, true);
    ParseInjective(Format(dt, true), out);
  }
}
