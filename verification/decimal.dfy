/** Decimal digits, as ASCII bytes and as characters. */
module Decimal {
  import opened Utf8

  /** An ASCII digit byte, `b'0'` to `b'9'`. */
  predicate IsDigitByte(b: byte) {
    0x30 <= b <= 0x39
  }

  /** `b'0' + n` for a single digit `n`. */
  function DigitByte(n: nat): (b: byte)
    requires n < 10
    ensures IsDigitByte(b) && ByteValue(b) == n
  {
    (0x30 + n) as byte
  }

  /** The digit an ASCII digit byte stands for. */
  function ByteValue(b: byte): nat
    requires IsDigitByte(b)
  {
    b as int - 0x30
  }

  predicate IsDigit(c: char) {
    '0' <= c <= '9'
  }

  /** The digit a digit character stands for. */
  function CharValue(c: char): nat
    requires IsDigit(c)
  {
    c as int - '0' as int
  }

  /** The digit character for a single digit `n`. */
  function DigitChar(n: nat): (c: char)
    requires n < 10
    ensures IsDigit(c) && CharValue(c) == n && c == DigitByte(n) as int as char
  {
    ('0' as int + n) as char
  }

  /** A value below 100 as two zero-padded digits, as `{:02}` and chrono's `%m`, `%d`, `%H`, `%M`, `%S` print it. */
  function Two(n: nat): (s: string)
    requires n < 100
    ensures |s| == 2 && IsDigit(s[0]) && IsDigit(s[1])
    ensures 10 * CharValue(s[0]) + CharValue(s[1]) == n
  {
    [DigitChar(n / 10), DigitChar(n % 10)]
  }

  /** The two-digit value at `s[i..i + 2]`. */
  function ReadTwo(s: string, i: nat): nat
    requires i + 2 <= |s| && IsDigit(s[i]) && IsDigit(s[i + 1])
  {
    10 * CharValue(s[i]) + CharValue(s[i + 1])
  }
}
