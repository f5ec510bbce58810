/**
 * The source's own scan scenario over the message " >< Foo >< Bar >< Baz >< ":
 * three `take_while` calls and two `until` calls from where the previous one
 * left the cursor. Each lemma takes whatever result the scanner's contract
 * allows and shows it is the one the scenario expects.
 */
module ScanExample {
  import opened Wrappers
  import opened Utf8
  import opened Utf8Reader
  import opened Scanning
  import Predicates

  /** The message, as the bytes `as_bytes` gives. */
  const MSG: Bytes := [
    0x20, 0x3E, 0x3C, 0x20, 0x46, 0x6F, 0x6F, 0x20, 0x3E, 0x3C, 0x20, 0x42, 0x61,
    0x72, 0x20, 0x3E, 0x3C, 0x20, 0x42, 0x61, 0x7A, 0x20, 0x3E, 0x3C, 0x20]

  /** The scenario's separator closure: space, `>` and `<`. */
  function Separator(ch: char): bool {
    ch == ' ' || ch == '>' || ch == '<'
  }

  /** A reader over the message whose cursor is at byte `at`. */
  predicate At(r: Reader, at: nat) {
    Valid(r) && r.src.stream == MSG && Consumed(r) == at
  }

  //------------------------------------------------------------------------------
  // ASCII runs

  /** An ASCII run whose bytes `p` accepts is valid text whose characters `p` accepts. */
  lemma AsciiRun(s: Bytes, i: nat, j: nat, p: char -> bool)
    requires i <= j <= |s| && forall k | i <= k < j :: s[k] < 0x80 && p(s[k] as int as char)
    ensures Ascii(s[i..j]) && ValidUtf8(s[i..j]) && AllChars(s[i..j], p)
    ensures DecodeStr(s[i..j]) == Widen(s[i..j])
  {
    AsciiText(s[i..j]);
  }

  /** An ASCII byte is the character it codes. */
  lemma AsciiAt(s: Bytes, i: nat)
    requires i < |s| && s[i] < 0x80
    ensures NextAt(s, i, Some(s[i] as int as char))
  {
    assert EncodeChar(s[i] as int as char) == s[i..][..1];
  }

  /** The message from `i` to `j` reads as `w`. */
  lemma Spells(i: nat, j: nat, w: string)
    requires i <= j <= |MSG| && |w| == j - i
    requires forall k | 0 <= k < |w| :: MSG[i + k] < 0x80 && w[k] as int == MSG[i + k] as int
    ensures Ascii(MSG[i..j]) && Widen(MSG[i..j]) == w
  {
    forall k | 0 <= k < j - i
      ensures MSG[i..j][k] == MSG[i + k]
    {
    }
  }

  /** The bytes the first scan looks at. */
  lemma SeparatorBytes(p: char -> bool)
    requires p(' ') && p('>') && p('<') && !p('F')
    ensures forall k | 0 <= k < 4 :: MSG[k] < 0x80 && p(MSG[k] as int as char)
    ensures MSG[4] < 0x80 && !p(MSG[4] as int as char) && MSG[4] as int as char == 'F'
    ensures Ascii(MSG[0..4]) && Widen(MSG[0..4]) == " >< "
  {
    Spells(0, 4, " >< ");
  }

  /** The bytes the second and third scans look at. */
  lemma WordBytes()
    ensures forall k | 4 <= k < 7 :: MSG[k] < 0x80 && MSG[k] as int as char in "Fo"
    ensures MSG[7] < 0x80 && MSG[7] as int as char == ' '
    ensures Ascii(MSG[4..7]) && Widen(MSG[4..7]) == "Foo"
  {
    Spells(4, 7, "Foo");
  }

  /** The bytes the two searches look at. */
  lemma SearchedBytes()
    ensures forall k | 7 <= k < |MSG| :: MSG[k] < 0x80
    ensures [0x42, 0x61, 0x72] <= MSG[11..]
    ensures NoByte(MSG, 0x42, 7, 11)
    ensures Ascii(MSG[7..11]) && Widen(MSG[7..11]) == " >< "
    ensures Ascii(MSG[7..|MSG|]) && Widen(MSG[7..|MSG|]) == " >< Bar >< Baz >< "
  {
    Spells(7, 11, " >< ");
    Spells(7, |MSG|, " >< Bar >< Baz >< ");
  }

  /** A run of the message whose end byte `p` rejects is the only longest run there. */
  lemma OnlyRun(i: nat, j: nat, p: char -> bool, t: Bytes, n: Option<char>)
    requires i <= j < |MSG| && forall k | i <= k < j :: MSG[k] < 0x80 && p(MSG[k] as int as char)
    requires MSG[j] < 0x80 && !p(MSG[j] as int as char)
    requires MaximalRun(MSG, i, t, n, p)
    ensures t == MSG[i..j] && n == Some(MSG[j] as int as char) && DecodeStr(t) == Widen(MSG[i..j])
  {
    AsciiRun(MSG, i, j, p);
    AsciiAt(MSG, j);
    MaximalRunUnique(MSG, i, t, n, MSG[i..j], Some(MSG[j] as int as char), p);
  }

  //------------------------------------------------------------------------------
  // take_while

  /**
   * The longest run at the start of the message of a classifier that accepts
   * the space, `>` and `<` and rejects `F`.
   */
  lemma SeparatorRun(p: char -> bool, t: Bytes, n: Option<char>)
    requires p(' ') && p('>') && p('<') && !p('F') && MaximalRun(MSG, 0, t, n, p)
    ensures DecodeStr(t) == " >< " && |t| == 4 && n == Some('F')
  {
    SeparatorBytes(p);
    OnlyRun(0, 4, p, t, n);
  }

  /** The longest run at byte 4 of a classifier that accepts `F` and `o` and rejects the space. */
  lemma WordRun(p: char -> bool, t: Bytes, n: Option<char>)
    requires p('F') && p('o') && !p(' ') && MaximalRun(MSG, 4, t, n, p)
    ensures DecodeStr(t) == "Foo" && |t| == 3 && n == Some(' ')
  {
    WordBytes();
    OnlyRun(4, 7, p, t, n);
  }

  /** The longest run at byte 7 of `not!(separator)`: the space stops it at once. */
  lemma EmptyRunAt7(t: Bytes, n: Option<char>)
    requires MaximalRun(MSG, 7, t, n, Predicates.NotOf([Separator]))
    ensures t == [] && n == Some(' ')
  {
    WordBytes();
    OnlyRun(7, 7, Predicates.NotOf([Separator]), t, n);
  }

  /** What `take_while`'s contract says of the stream and the cursor. */
  lemma Took(r: Reader, p: char -> bool, sc: Scanned)
    requires Valid(r) && TookWhile(r, p, sc)
    ensures MaximalRun(r.src.stream, Consumed(r), sc.span, sc.next, p)
    ensures Valid(sc.reader) && sc.reader.src.stream == r.src.stream
    ensures Consumed(sc.reader) == Consumed(r) + |sc.span|
  {
  }

  /** `take_while(separator)` from the start: `(" >< ", Some('F'))`. */
  lemma FirstScan(r: Reader, sc: Scanned)
    requires At(r, 0) && TookWhile(r, Separator, sc)
    ensures DecodeStr(sc.span) == " >< " && sc.next == Some('F') && At(sc.reader, 4)
  {
    Took(r, Separator, sc);
    SeparatorRun(Separator, sc.span, sc.next);
  }

  /**
   * `take_while(alphabetic)` after it: `("Foo", Some(' '))`. It holds for any
   * classifier that accepts `F` and `o` and rejects the space.
   */
  lemma WordScan(r: Reader, p: char -> bool, sc: Scanned)
    requires At(r, 4) && p('F') && p('o') && !p(' ') && TookWhile(r, p, sc)
    ensures DecodeStr(sc.span) == "Foo" && sc.next == Some(' ') && At(sc.reader, 7)
  {
    Took(r, p, sc);
    WordRun(p, sc.span, sc.next);
  }

  /** `take_while(not!(separator))` on the space that follows: nothing, and the space. */
  lemma NotSeparatorScan(r: Reader, sc: Scanned)
    requires At(r, 7) && TookWhile(r, Predicates.NotOf([Separator]), sc)
    ensures sc.span == [] && sc.next == Some(' ') && At(sc.reader, 7)
  {
    Took(r, Predicates.NotOf([Separator]), sc);
    EmptyRunAt7(sc.span, sc.next);
  }

  //------------------------------------------------------------------------------
  // until

  /** `t` does not start at `j`: it runs past the end, or a byte differs. */
  lemma NotAt(s: Bytes, t: Bytes, j: nat, k: nat)
    requires j <= |s| && k < |t| && (j + k >= |s| || s[j + k] != t[k])
    ensures !OccursAt(s, j, t)
  {
  }

  /** `"<>"` occurs nowhere from byte 7 on: every `<` there is followed by a space. */
  lemma NoAngles(tb: Bytes)
    requires tb == [0x3C, 0x3E]
    ensures NoneBetween(MSG, tb, 7, |MSG|)
  {
    forall j | 7 <= j < |MSG|
      ensures !OccursAt(MSG, j, tb)
    {
      if MSG[j] == 0x3C {
        NotAt(MSG, tb, j, 1);
      } else {
        NotAt(MSG, tb, j, 0);
      }
    }
  }

  /** The bytes of the two terminators. */
  lemma AngleBytes()
    ensures EncodeStr("<>") == [0x3C, 0x3E]
  {
    assert "<>"[1..] == ">";
  }

  lemma BarBytes()
    ensures EncodeStr("Bar") == [0x42, 0x61, 0x72]
  {
    assert "Bar"[1..] == "ar" && "ar"[1..] == "r";
  }

  /** From byte 7 there is no `<>`: the span is the rest of the message. */
  lemma AnglesRest(span: Span)
    requires SpanUntil(MSG, 7, EncodeStr("<>"), span)
    ensures span.Rejected? && span.text == MSG[7..|MSG|]
  {
    var tb := EncodeStr("<>");
    AngleBytes();
    NoAngles(tb);
    FindNone(MSG, 7, tb);
    SpanIsFind(MSG, 7, tb, span);
  }

  /** The span the `<>` search gives back, as text. */
  lemma AnglesSpan(span: Span)
    requires SpanUntil(MSG, 7, EncodeStr("<>"), span)
    ensures span.Rejected? && DecodeStr(span.text) == " >< Bar >< Baz >< "
  {
    AnglesRest(span);
    SearchedBytes();
    AsciiRun(MSG, 7, |MSG|, Predicates.Any);
  }

  /** From byte 7 the first `Bar` is at byte 11: the span is the four bytes before it. */
  lemma BarSpan(span: Span)
    requires SpanUntil(MSG, 7, EncodeStr("Bar"), span)
    ensures span.Accepted? && DecodeStr(span.text) == " >< " && |span.text| == 4 && |EncodeStr("Bar")| == 3
  {
    var tb := EncodeStr("Bar");
    BarBytes();
    SearchedBytes();
    NoByteNoOccurrence(MSG, tb, 7, 11);
    FindFirst(MSG, 7, tb, 11);
    SpanIsFind(MSG, 7, tb, span);
    AsciiRun(MSG, 7, 11, Predicates.Any);
  }

  /** What `until`'s contract says of the stream and the cursor. */
  lemma Searched(r: Reader, tb: Bytes, f: Found)
    requires Valid(r) && FoundUntil(r, tb, f)
    ensures SpanUntil(r.src.stream, Consumed(r), tb, f.span)
    ensures Valid(f.reader) && f.reader.src.stream == r.src.stream
    ensures f.span.Accepted? ==> Consumed(f.reader) == Consumed(r) + |f.span.text| + |tb|
    ensures f.span.Rejected? ==> Consumed(f.reader) == Consumed(r)
  {
  }

  /** `until("<>")` from byte 7: `Err(" >< Bar >< Baz >< ")`, and the cursor stays. */
  lemma MissingUntil(r: Reader, f: Found)
    requires At(r, 7) && FoundUntil(r, EncodeStr("<>"), f)
    ensures f.span.Rejected? && DecodeStr(f.span.text) == " >< Bar >< Baz >< " && At(f.reader, 7)
  {
    Searched(r, EncodeStr("<>"), f);
    AnglesSpan(f.span);
  }

  /** `until("Bar")` from byte 7: `Ok(" >< ")`, and the cursor moves past `Bar`. */
  lemma FoundBar(r: Reader, f: Found)
    requires At(r, 7) && FoundUntil(r, EncodeStr("Bar"), f)
    ensures f.span.Accepted? && DecodeStr(f.span.text) == " >< " && At(f.reader, 14)
  {
    Searched(r, EncodeStr("Bar"), f);
    BarSpan(f.span);
  }
}
