/**
 * UTF-8 as defined by the UTF8-octets grammar of section 4 of RFC 3629:
 *
 *   UTF8-char = UTF8-1 / UTF8-2 / UTF8-3 / UTF8-4, with the restricted second
 *   bytes after E0, ED, F0 and F4 that exclude overlong forms, surrogates and
 *   code points above U+10FFFF.
 *
 * The reader uses these definitions as its notion of "valid text", and the
 * incremental validator it calls is modelled here by `Validate`.
 */
module Utf8 {
  import opened Wrappers

  newtype byte = x: int | 0 <= x < 256

  type Bytes = seq<byte>

  /** Length of the sequence introduced by a lead byte; 0 when the byte cannot start one. */
  function Width(lead: byte): (w: nat)
    ensures w <= 4
    ensures 0x80 <= lead <= 0xBF ==> w == 0
  {
    if lead < 0x80 then 1
    else if 0xC2 <= lead <= 0xDF then 2
    else if 0xE0 <= lead <= 0xEF then 3
    else if 0xF0 <= lead <= 0xF4 then 4
    else 0
  }

  /** UTF8-tail. */
  predicate IsTail(b: byte) {
    0x80 <= b <= 0xBF
  }

  /** The range allowed for the second byte of a sequence, given its lead byte. */
  predicate SecondOk(lead: byte, b: byte) {
    if lead == 0xE0 then 0xA0 <= b <= 0xBF
    else if lead == 0xED then 0x80 <= b <= 0x9F
    else if lead == 0xF0 then 0x90 <= b <= 0xBF
    else if lead == 0xF4 then 0x80 <= b <= 0x8F
    else IsTail(b)
  }

  /** `s` can be extended to a UTF8-char: every byte so far is allowed where it stands. */
  predicate LegalPrefix(s: Bytes) {
    1 <= |s| && |s| <= Width(s[0])
    && (|s| >= 2 ==> SecondOk(s[0], s[1]))
    && (forall i | 2 <= i < |s| :: IsTail(s[i]))
  }

  /** `s` is exactly one UTF8-char. */
  predicate IsChar(s: Bytes) {
    LegalPrefix(s) && |s| == Width(s[0])
  }

  /** `s` is a proper prefix of some UTF8-char: legal so far, but cut short. */
  predicate IsPartial(s: Bytes) {
    LegalPrefix(s) && |s| < Width(s[0])
  }

  /** The sequence starting at `s[0]` can never become a UTF8-char, whatever follows. */
  predicate Illegal(s: Bytes) {
    1 <= |s| && (Width(s[0]) == 0 || !LegalPrefix(s[..Min(Width(s[0]), |s|)]))
  }

  function Min(a: nat, b: nat): nat {
    if a <= b then a else b
  }

  /** UTF8-octets: a sequence of UTF8-chars. The width of each is fixed by its lead byte. */
  predicate ValidUtf8(s: Bytes)
    decreases |s|
  {
    |s| == 0 || (var w := Width(s[0]); 1 <= w <= |s| && IsChar(s[..w]) && ValidUtf8(s[w..]))
  }

  /** Rust's `str::is_char_boundary`: `n` is 0, the length, or an index whose byte is not a UTF8-tail. */
  predicate IsCharBoundary(s: Bytes, n: nat) {
    n == 0 || n == |s| || (n < |s| && !IsTail(s[n]))
  }

  /** `is_char_boundary` holds at 0 and at the length, and never past the end. */
  lemma BoundaryEnds(s: Bytes, n: nat)
    ensures IsCharBoundary(s, 0) && IsCharBoundary(s, |s|)
    ensures n > |s| ==> !IsCharBoundary(s, n)
  {
  }

  //------------------------------------------------------------------------------
  // Structure of valid text

  lemma LegalPrefixClosed(s: Bytes, k: nat)
    requires LegalPrefix(s) && 1 <= k <= |s|
    ensures LegalPrefix(s[..k])
  {
  }

  lemma CharFirst(s: Bytes)
    requires ValidUtf8(s) && |s| > 0
    ensures IsChar(s[..Width(s[0])]) && ValidUtf8(s[Width(s[0])..])
  {
  }

  lemma IsCharValid(c: Bytes)
    requires IsChar(c)
    ensures ValidUtf8(c)
  {
    assert c[..|c|] == c;
    assert c[|c|..] == [];
  }

  /** A partial character is not valid text, and neither is an illegal sequence with anything after it. */
  lemma PartialNotValid(s: Bytes)
    requires IsPartial(s)
    ensures !ValidUtf8(s)
  {
  }

  lemma IllegalExtend(s: Bytes, ext: Bytes)
    requires Illegal(s)
    ensures Illegal(s + ext)
  {
    var t := s + ext;
    assert t[0] == s[0];
    var w := Width(s[0]);
    if w != 0 {
      var m := Min(w, |s|);
      var m' := Min(w, |t|);
      assert t[..m'][..m] == s[..m];
      if LegalPrefix(t[..m']) {
        LegalPrefixClosed(t[..m'], m);
      }
    }
  }

  lemma IllegalNeverValid(s: Bytes)
    requires Illegal(s)
    ensures !ValidUtf8(s)
  {
  }

  lemma {:induction false} ValidConcat(a: Bytes, b: Bytes)
    requires ValidUtf8(a) && ValidUtf8(b)
    ensures ValidUtf8(a + b)
    decreases |a|
  {
    if |a| == 0 {
      assert a + b == b;
    } else {
      var w := Width(a[0]);
      ValidConcat(a[w..], b);
      assert (a + b)[0] == a[0];
      assert (a + b)[..w] == a[..w];
      assert (a + b)[w..] == a[w..] + b;
    }
  }

  lemma {:induction false} ValidSplit(s: Bytes, k: nat)
    requires ValidUtf8(s) && k <= |s| && ValidUtf8(s[..k])
    ensures ValidUtf8(s[k..])
    decreases |s|
  {
    if k == 0 {
      assert s[k..] == s;
    } else {
      var w := Width(s[0]);
      var p := s[..k];
      assert p[0] == s[0];
      assert p[..w] == s[..w];
      assert s[w..][..k - w] == p[w..];
      ValidSplit(s[w..], k - w);
      assert s[w..][k - w..] == s[k..];
    }
  }

  /** Valid text splits into valid text at every index that is a valid prefix. */
  lemma ValidSlice(s: Bytes, i: nat, j: nat)
    requires i <= j <= |s| && ValidUtf8(s[..j]) && ValidUtf8(s[..i])
    ensures ValidUtf8(s[i..j])
  {
    assert s[..j][..i] == s[..i];
    ValidSplit(s[..j], i);
    assert s[..j][i..] == s[i..j];
  }

  lemma ValidJoin(s: Bytes, i: nat, j: nat)
    requires i <= j <= |s| && ValidUtf8(s[..i]) && ValidUtf8(s[i..j])
    ensures ValidUtf8(s[..j])
  {
    ValidConcat(s[..i], s[i..j]);
    assert s[..i] + s[i..j] == s[..j];
  }

  /**
   * In valid text, Rust's byte-level boundary test agrees with the grammar:
   * `n` is a character boundary exactly when the first `n` bytes are valid text.
   */
  lemma {:induction false} BoundaryIsValidPrefix(s: Bytes, n: nat)
    requires ValidUtf8(s) && n <= |s|
    ensures IsCharBoundary(s, n) <==> ValidUtf8(s[..n])
    decreases |s|
  {
    if n == 0 || n == |s| {
      assert s[..|s|] == s;
    } else {
      var w := Width(s[0]);
      var p := s[..n];
      assert p[0] == s[0];
      if n < w {
        assert IsTail(s[..w][n]);
      } else if n == w {
        CharFirst(s);
        assert s[w..][0] == s[n];
        assert p == s[..w];
        IsCharValid(s[..w]);
      } else {
        BoundaryIsValidPrefix(s[w..], n - w);
        assert s[w..][n - w] == s[n];
        assert p[..w] == s[..w];
        assert p[w..] == s[w..][..n - w];
      }
    }
  }

  //------------------------------------------------------------------------------
  // One character

  /** Rust's `char::len_utf8`. */
  function LenUtf8(c: char): nat {
    var n := c as int;
    if n < 0x80 then 1 else if n < 0x800 then 2 else if n < 0x1_0000 then 3 else 4
  }

  /** The scalar value a UTF8-char denotes. */
  function DecodeChar(s: Bytes): char
    requires IsChar(s)
  {
    var b0 := s[0] as int;
    if |s| == 1 then b0 as char
    else
      var b1 := s[1] as int - 0x80;
      if |s| == 2 then ((b0 - 0xC0) * 64 + b1) as char
      else
        var b2 := s[2] as int - 0x80;
        if |s| == 3 then
          assert b0 == 0xED ==> b1 < 0x20;
          ((b0 - 0xE0) * 4096 + b1 * 64 + b2) as char
        else
          var b3 := s[3] as int - 0x80;
          assert b0 == 0xF4 ==> b1 < 0x10;
          ((b0 - 0xF0) * 262144 + b1 * 4096 + b2 * 64 + b3) as char
  }

  /** The UTF8-char of a scalar value, as `char::encode_utf8` writes it. */
  function EncodeChar(c: char): (s: Bytes)
    ensures IsChar(s) && |s| == LenUtf8(c)
  {
    var n := c as int;
    var q1 := n / 64;
    var q2 := q1 / 64;
    var q3 := q2 / 64;
    if n < 0x80 then [n as byte]
    else if n < 0x800 then [(0xC0 + q1) as byte, (0x80 + n % 64) as byte]
    else if n < 0x1_0000 then
      [(0xE0 + q2) as byte, (0x80 + q1 % 64) as byte, (0x80 + n % 64) as byte]
    else
      [(0xF0 + q3) as byte, (0x80 + q2 % 64) as byte, (0x80 + q1 % 64) as byte, (0x80 + n % 64) as byte]
  }

  /**
   * `len_utf8` is between 1 and 4, and 1 exactly for ASCII. It is the width
   * announced by the lead byte of the character's encoding, so stepping by
   * it lands on the next character.
   */
  lemma LenUtf8Width(c: char)
    ensures 1 <= LenUtf8(c) <= 4 && (LenUtf8(c) == 1 <==> c as int < 0x80)
    ensures Width(EncodeChar(c)[0]) == LenUtf8(c)
  {
  }

  lemma DecodeEncodeChar(c: char)
    ensures DecodeChar(EncodeChar(c)) == c
  {
  }

  lemma DivMod64(x: int, y: int)
    requires 0 <= y < 64
    ensures (x * 64 + y) / 64 == x && (x * 64 + y) % 64 == y
  {
  }

  lemma EncodeDecodeChar(s: Bytes)
    requires IsChar(s)
    ensures EncodeChar(DecodeChar(s)) == s
  {
    if |s| == 2 {
      EncodeDecode2(s);
    } else if |s| == 3 {
      EncodeDecode3(s);
    } else if |s| == 4 {
      EncodeDecode4(s);
    }
  }

  lemma EncodeDecode2(s: Bytes)
    requires IsChar(s) && |s| == 2
    ensures EncodeChar(DecodeChar(s)) == s
  {
    var b1 := s[1] as int - 0x80;
    var n := (s[0] as int - 0xC0) * 64 + b1;
    assert DecodeChar(s) as int == n;
    DivMod64(s[0] as int - 0xC0, b1);
    var e := EncodeChar(DecodeChar(s));
    assert e[0] == s[0] && e[1] == s[1];
  }

  lemma EncodeDecode3(s: Bytes)
    requires IsChar(s) && |s| == 3
    ensures EncodeChar(DecodeChar(s)) == s
  {
    var b1 := s[1] as int - 0x80;
    var b2 := s[2] as int - 0x80;
    var hi := s[0] as int - 0xE0;
    var n := (hi * 64 + b1) * 64 + b2;
    assert DecodeChar(s) as int == n;
    DivMod64(hi * 64 + b1, b2);
    DivMod64(hi, b1);
    var e := EncodeChar(DecodeChar(s));
    assert e[0] == s[0] && e[1] == s[1] && e[2] == s[2];
  }

  lemma EncodeDecode4(s: Bytes)
    requires IsChar(s) && |s| == 4
    ensures EncodeChar(DecodeChar(s)) == s
  {
    var b1 := s[1] as int - 0x80;
    var b2 := s[2] as int - 0x80;
    var b3 := s[3] as int - 0x80;
    var hi := s[0] as int - 0xF0;
    var n := ((hi * 64 + b1) * 64 + b2) * 64 + b3;
    assert DecodeChar(s) as int == n;
    DivMod64((hi * 64 + b1) * 64 + b2, b3);
    DivMod64(hi * 64 + b1, b2);
    DivMod64(hi, b1);
    var e := EncodeChar(DecodeChar(s));
    assert e[0] == s[0] && e[1] == s[1] && e[2] == s[2] && e[3] == s[3];
  }

  /** The first character of valid text, if any. */
  function FirstChar(s: Bytes): (c: Option<char>)
    requires ValidUtf8(s)
    ensures c.None? <==> |s| == 0
    ensures c.Some? ==> LenUtf8(c.value) <= |s| && s[..LenUtf8(c.value)] == EncodeChar(c.value)
    ensures c.Some? ==> ValidUtf8(s[LenUtf8(c.value)..])
  {
    if |s| == 0 then None
    else
      var w := Width(s[0]);
      EncodeDecodeChar(s[..w]);
      Some(DecodeChar(s[..w]))
  }

  //------------------------------------------------------------------------------
  // Strings

  /** The characters of valid text. */
  function DecodeStr(s: Bytes): string
    requires ValidUtf8(s)
    decreases |s|
  {
    if |s| == 0 then [] else
      var w := Width(s[0]);
      [DecodeChar(s[..w])] + DecodeStr(s[w..])
  }

  /** `str::as_bytes`: the UTF-8 form of a string. */
  function EncodeStr(t: string): (s: Bytes)
    ensures ValidUtf8(s)
  {
    if |t| == 0 then []
    else
      var c := EncodeChar(t[0]);
      var rest := EncodeStr(t[1..]);
      assert (c + rest)[0] == c[0];
      assert (c + rest)[..|c|] == c;
      assert (c + rest)[|c|..] == rest;
      c + rest
  }

  lemma {:induction false} DecodeEncodeStr(t: string)
    ensures DecodeStr(EncodeStr(t)) == t
    decreases |t|
  {
    if |t| > 0 {
      var c := EncodeChar(t[0]);
      var s := EncodeStr(t);
      assert s[0] == c[0] && s[..|c|] == c && s[|c|..] == EncodeStr(t[1..]);
      DecodeFront(s, |c|);
      DecodeEncodeChar(t[0]);
      DecodeEncodeStr(t[1..]);
      assert [t[0]] + t[1..] == t;
    }
  }

  lemma {:induction false} EncodeDecodeStr(s: Bytes)
    requires ValidUtf8(s)
    ensures EncodeStr(DecodeStr(s)) == s
    decreases |s|
  {
    if |s| > 0 {
      var w := Width(s[0]);
      var t := DecodeStr(s);
      assert t[0] == DecodeChar(s[..w]);
      assert t[1..] == DecodeStr(s[w..]);
      calc {
        EncodeStr(t);
        EncodeChar(t[0]) + EncodeStr(t[1..]);
        { EncodeDecodeChar(s[..w]); EncodeDecodeStr(s[w..]); }
        s[..w] + s[w..];
        s;
      }
    }
  }

  /** Decoding is a homomorphism from concatenation of valid text to concatenation of strings. */
  lemma {:induction false} DecodeConcat(a: Bytes, b: Bytes)
    requires ValidUtf8(a) && ValidUtf8(b)
    ensures ValidUtf8(a + b) && DecodeStr(a + b) == DecodeStr(a) + DecodeStr(b)
    decreases |a|
  {
    if |a| == 0 {
      assert a + b == b;
    } else {
      var w := Width(a[0]);
      DecodeConcat(a[w..], b);
      DecodeJoinStep(a, b, w);
    }
  }

  /** One step of the join: the first character of `a` goes in front of the join of the rest with `b`. */
  lemma DecodeJoinStep(a: Bytes, b: Bytes, w: nat)
    requires |a| > 0 && w == Width(a[0]) && ValidUtf8(b)
    requires 1 <= w <= |a| && IsChar(a[..w]) && ValidUtf8(a[w..])
    requires ValidUtf8(a[w..] + b) && DecodeStr(a[w..] + b) == DecodeStr(a[w..]) + DecodeStr(b)
    ensures ValidUtf8(a) && ValidUtf8(a + b) && DecodeStr(a + b) == DecodeStr(a) + DecodeStr(b)
  {
    var ab := a + b;
    FrontOfJoin(a, b, w);
    DecodeFront(ab, w);
    DecodeFront(a, w);
    Regroup([DecodeChar(a[..w])], DecodeStr(a[w..]), DecodeStr(b));
  }

  lemma Regroup<T>(c: seq<T>, x: seq<T>, y: seq<T>)
    ensures c + (x + y) == (c + x) + y
  {
  }

  /** Text whose first character is whole and whose rest is valid decodes as that character and the rest. */
  lemma DecodeFront(s: Bytes, w: nat)
    requires |s| > 0 && w == Width(s[0]) && 1 <= w <= |s| && IsChar(s[..w]) && ValidUtf8(s[w..])
    ensures ValidUtf8(s) && DecodeStr(s) == [DecodeChar(s[..w])] + DecodeStr(s[w..])
  {
  }

  /** Cutting a join inside its first part. */
  lemma FrontOfJoin(a: Bytes, b: Bytes, w: nat)
    requires w <= |a|
    ensures (0 < |a| ==> (a + b)[0] == a[0]) && (a + b)[..w] == a[..w] && (a + b)[w..] == a[w..] + b
  {
    assert (a + b)[..w] == a[..w];
    assert (a + b)[w..] == a[w..] + b;
  }

  lemma DecodeOneChar(c: Bytes)
    requires IsChar(c)
    ensures ValidUtf8(c) && DecodeStr(c) == [DecodeChar(c)]
  {
    IsCharValid(c);
    assert c[..|c|] == c;
    assert c[|c|..] == [];
  }

  /** Every character of valid text `s` is accepted by `p`. */
  predicate AllChars(s: Bytes, p: char -> bool)
    requires ValidUtf8(s)
  {
    forall i | 0 <= i < |DecodeStr(s)| :: p(DecodeStr(s)[i])
  }

  /** Number of characters in valid text. */
  function CharCount(s: Bytes): nat
    requires ValidUtf8(s)
  {
    |DecodeStr(s)|
  }

  lemma AppendChar(a: Bytes, c: Bytes, p: char -> bool)
    requires ValidUtf8(a) && IsChar(c)
    ensures ValidUtf8(a + c)
    ensures CharCount(a + c) == CharCount(a) + 1
    ensures AllChars(a + c, p) <==> AllChars(a, p) && p(DecodeChar(c))
  {
    DecodeOneChar(c);
    DecodeConcat(a, c);
    var d := DecodeStr(a + c);
    assert d[|d| - 1] == DecodeChar(c);
    if AllChars(a, p) && p(DecodeChar(c)) {
      forall i | 0 <= i < |d|
        ensures p(d[i])
      {
        if i < |d| - 1 {
          assert d[i] == DecodeStr(a)[i];
        }
      }
    }
    if AllChars(a + c, p) {
      forall i | 0 <= i < |DecodeStr(a)|
        ensures p(DecodeStr(a)[i])
      {
        assert d[i] == DecodeStr(a)[i];
      }
    }
  }

  //------------------------------------------------------------------------------
  // The incremental validator

  /**
   * What an incremental UTF-8 checker reports about a byte span: all of it is
   * valid; a valid prefix followed by a truncated character; or a valid prefix
   * followed by an illegal sequence.
   */
  datatype Validation = Complete | Incomplete(validUpTo: nat) | Invalid(validUpTo: nat)

  function Shift(v: Validation, d: nat): Validation {
    match v
    case Complete => Complete
    case Incomplete(k) => Incomplete(k + d)
    case Invalid(k) => Invalid(k + d)
  }

  function Validate(s: Bytes): (v: Validation)
    ensures v.Complete? <==> ValidUtf8(s)
    ensures v.Incomplete? ==>
      v.validUpTo < |s| && ValidUtf8(s[..v.validUpTo]) && IsPartial(s[v.validUpTo..])
    ensures v.Invalid? ==>
      v.validUpTo < |s| && ValidUtf8(s[..v.validUpTo]) && Illegal(s[v.validUpTo..])
    decreases |s|
  {
    if |s| == 0 then Complete
    else
      var w := Width(s[0]);
      if w == 0 then Invalid(0)
      else if |s| < w then
        assert s[..|s|] == s;
        if LegalPrefix(s) then Incomplete(0) else Invalid(0)
      else if !IsChar(s[..w]) then Invalid(0)
      else
        var v := Validate(s[w..]);
        ShiftVerdict(s, w, v);
        Shift(v, w)
  }

  /** What `Validate` promises of its verdict `v` on `s`. */
  predicate Verdict(s: Bytes, v: Validation) {
    && (v.Complete? <==> ValidUtf8(s))
    && (v.Incomplete? ==> v.validUpTo < |s| && ValidUtf8(s[..v.validUpTo]) && IsPartial(s[v.validUpTo..]))
    && (v.Invalid? ==> v.validUpTo < |s| && ValidUtf8(s[..v.validUpTo]) && Illegal(s[v.validUpTo..]))
  }

  /** A verdict on the text after a first character, shifted past it, is a verdict on the whole. */
  lemma ShiftVerdict(s: Bytes, w: nat, v: Validation)
    requires 1 <= w <= |s| && IsChar(s[..w]) && Width(s[0]) == w
    requires Verdict(s[w..], v)
    ensures Verdict(s, Shift(v, w))
  {
    ShiftPrefix(s, w, v);
  }

  /** How a verdict on `s[w..]` reads once the character `s[..w]` is put in front. */
  lemma ShiftPrefix(s: Bytes, w: nat, v: Validation)
    requires 1 <= w <= |s| && IsChar(s[..w]) && Width(s[0]) == w
    requires v.Incomplete? || v.Invalid? ==> v.validUpTo < |s[w..]| && ValidUtf8(s[w..][..v.validUpTo])
    ensures v.Incomplete? || v.Invalid? ==>
      ValidUtf8(s[..w + v.validUpTo]) && s[w + v.validUpTo..] == s[w..][v.validUpTo..]
  {
    if v.Incomplete? || v.Invalid? {
      var k := v.validUpTo;
      var p := s[..w + k];
      assert p[0] == s[0];
      assert p[..w] == s[..w];
      assert p[w..] == s[w..][..k];
    }
  }

  /** A valid non-empty prefix begins with a whole character, and the rest of the prefix is valid. */
  lemma ValidPrefixStep(s: Bytes, k: nat)
    requires 0 < k <= |s| && ValidUtf8(s[..k])
    ensures var w := Width(s[0]);
      && 1 <= w <= k && IsChar(s[..w]) && ValidUtf8(s[w..][..k - w]) && s[w..][k - w..] == s[k..]
  {
    var w := Width(s[0]);
    var p := s[..k];
    assert p[0] == s[0];
    assert 1 <= w <= k && IsChar(p[..w]) && ValidUtf8(p[w..]);
    assert p[..w] == s[..w];
    assert s[w..][..k - w] == p[w..];
    assert s[w..][k - w..] == s[k..];
  }

  /** After a whole first character, the verdict is the verdict on the rest, shifted past it. */
  lemma ValidateStep(s: Bytes, w: nat)
    requires 0 < w <= |s| && w == Width(s[0]) && IsChar(s[..w])
    ensures Validate(s) == Shift(Validate(s[w..]), w)
  {
  }

  /** The validator's verdict is determined by the grammar: the converse of its contract. */
  lemma {:induction false} ValidateIncompleteExact(s: Bytes, k: nat)
    requires k <= |s| && ValidUtf8(s[..k]) && IsPartial(s[k..])
    ensures Validate(s) == Incomplete(k)
    decreases |s|
  {
    if k == 0 {
      assert s[k..] == s;
      assert s[..|s|] == s;
    } else {
      var w := Width(s[0]);
      ValidPrefixStep(s, k);
      ValidateIncompleteExact(s[w..], k - w);
      ValidateStep(s, w);
    }
  }

  lemma {:induction false} ValidateInvalidExact(s: Bytes, k: nat)
    requires k <= |s| && ValidUtf8(s[..k]) && Illegal(s[k..])
    ensures Validate(s) == Invalid(k)
    decreases |s|
  {
    if k == 0 {
      assert s[k..] == s;
      var w := Width(s[0]);
      if w != 0 && |s| < w {
        assert s[..|s|] == s;
      }
    } else {
      var w := Width(s[0]);
      ValidPrefixStep(s, k);
      ValidateInvalidExact(s[w..], k - w);
      ValidateStep(s, w);
    }
  }

  /** A valid prefix only shifts the verdict on what follows it. */
  lemma ValidateAfterValid(v: Bytes, x: Bytes)
    requires ValidUtf8(v)
    ensures Validate(v + x) == Shift(Validate(x), |v|)
  {
    var r := Validate(x);
    if r.Complete? {
      ValidConcat(v, x);
    } else if r.Incomplete? {
      IncompleteAfterValid(v, x, r.validUpTo);
    } else {
      InvalidAfterValid(v, x, r.validUpTo);
    }
  }

  lemma IncompleteAfterValid(v: Bytes, x: Bytes, k: nat)
    requires ValidUtf8(v) && k <= |x| && ValidUtf8(x[..k]) && IsPartial(x[k..])
    ensures Validate(v + x) == Incomplete(|v| + k)
  {
    PrefixThenRest(v, x, k);
    ValidateIncompleteExact(v + x, |v| + k);
  }

  lemma InvalidAfterValid(v: Bytes, x: Bytes, k: nat)
    requires ValidUtf8(v) && k <= |x| && ValidUtf8(x[..k]) && Illegal(x[k..])
    ensures Validate(v + x) == Invalid(|v| + k)
  {
    PrefixThenRest(v, x, k);
    ValidateInvalidExact(v + x, |v| + k);
  }

  lemma PrefixThenRest(v: Bytes, x: Bytes, k: nat)
    requires ValidUtf8(v) && k <= |x| && ValidUtf8(x[..k])
    ensures ValidUtf8((v + x)[..|v| + k]) && (v + x)[|v| + k..] == x[k..]
  {
    var s := v + x;
    var p := x[..k];
    assert s[..|v| + k] == v + p;
    assert s[|v| + k..] == x[k..];
    ValidConcat(v, p);
  }

  /** Once an illegal byte has been seen, no further input changes the verdict. */
  lemma ValidateInvalidStays(p: Bytes, ext: Bytes)
    requires Validate(p).Invalid?
    ensures Validate(p + ext) == Validate(p)
  {
    var k := Validate(p).validUpTo;
    var s := p + ext;
    FrontOfJoin(p, ext, k);
    IllegalExtend(p[k..], ext);
    ValidateInvalidExact(s, k);
  }

  //------------------------------------------------------------------------------
  // ASCII

  /** Every byte is below 0x80. */
  predicate Ascii(s: Bytes) {
    forall i | 0 <= i < |s| :: s[i] < 0x80
  }

  /** The characters whose codes are the bytes, one for one. */
  function Widen(s: Bytes): (t: string)
    requires Ascii(s)
  {
    seq(|s|, i requires 0 <= i < |s| => s[i] as int as char)
  }

  /** ASCII bytes are valid text in which every byte is a character of its own. */
  lemma {:induction false} AsciiText(s: Bytes)
    requires Ascii(s)
    ensures ValidUtf8(s) && DecodeStr(s) == Widen(s)
    decreases |s|
  {
    if |s| > 0 {
      assert Width(s[0]) == 1 && IsChar(s[..1]);
      assert DecodeChar(s[..1]) == s[0] as int as char;
      AsciiText(s[1..]);
      assert Widen(s) == [s[0] as int as char] + Widen(s[1..]);
    }
  }
}
