/**
 * The scanners of `Utf8Reader`: `take_while`, `take_times` and `until`.
 *
 * They work on the reader without compaction (through `pull_more`), so the
 * buffer offset where a scan started still addresses its first byte at the
 * end, and the span they return is a slice of the buffer. The model states
 * spans as slices of the stream and also proves them equal to the buffer
 * slice the source hands out.
 */
module Scanning {
  import opened Wrappers
  import opened Utf8
  import opened Ranges
  import opened Utf8Reader

  /** The result of `take_while`: the reader, the span taken and the character that stopped the scan. */
  datatype Scanned = Scanned(reader: Reader, span: Bytes, next: Option<char>)

  /** A span that was accepted (and consumed) or rejected (and given back). */
  datatype Span = Accepted(text: Bytes) | Rejected(text: Bytes)

  /** The result of `take_times`. */
  datatype Counted = Counted(reader: Reader, span: Span, next: Option<char>)

  /** The result of `until`. */
  datatype Found = Found(reader: Reader, span: Span)

  //------------------------------------------------------------------------------
  // Facts the scanners share

  /** The bytes of the character at the cursor. */
  lemma NextCharBytes(r: Reader, c: char)
    requires Valid(r) && NextChar(r) == Some(c)
    ensures Consumed(r) + LenUtf8(c) <= ValidEnd(r)
    ensures r.src.stream[Consumed(r)..Consumed(r) + LenUtf8(c)] == EncodeChar(c)
  {
    SubSlices(r.src.stream, Consumed(r), Consumed(r) + LenUtf8(c), ValidEnd(r));
  }

  /** A run of accepted characters grows by one accepted character. */
  lemma ExtendRun(s: Bytes, start: nat, mid: nat, end: nat, c: char, p: char -> bool)
    requires start <= mid <= end <= |s| && end == mid + LenUtf8(c)
    requires ValidUtf8(s[start..mid]) && s[mid..end] == EncodeChar(c)
    ensures ValidUtf8(s[start..end])
    ensures CharCount(s[start..end]) == CharCount(s[start..mid]) + 1
    ensures AllChars(s[start..end], p) <==> AllChars(s[start..mid], p) && p(c)
  {
    assert s[start..end] == s[start..mid] + EncodeChar(c);
    AppendChar(s[start..mid], EncodeChar(c), p);
    DecodeEncodeChar(c);
  }

  /** The empty run. */
  lemma EmptyRun(s: Bytes, i: nat, p: char -> bool)
    requires i <= |s|
    ensures ValidUtf8(s[i..i]) && CharCount(s[i..i]) == 0 && AllChars(s[i..i], p)
  {
    assert s[i..i] == [];
  }

  /**
   * A reader that was not compacted still addresses the scan's start at the
   * same buffer offset, so the buffer slice from there to the cursor is the
   * stream slice.
   */
  lemma PinnedSpan(r: Reader, r': Reader)
    requires Sound(r) && Sound(r') && Pinned(r, r') && r'.src.stream == r.src.stream
    requires Consumed(r) <= Consumed(r')
    ensures r.offConsumed <= r'.offConsumed
    ensures r'.buf[r.offConsumed..r'.offConsumed] == r.src.stream[Consumed(r)..Consumed(r')]
  {
    BufSlice(r', r.offConsumed, r'.offConsumed);
  }

  /** A stretch of the buffer is the stretch of the stream at the same offsets past the compacted prefix. */
  lemma BufSlice(y: Reader, a: nat, b: nat)
    requires Accounted(y) && a <= b <= y.offRaw
    ensures y.buf[a..b] == y.src.stream[y.totConsumed + a..y.totConsumed + b]
  {
    var s, t := y.src.stream, y.totConsumed;
    SubSlices(s, t, t + b, y.totRead);
    SubSlices(s, t, t + a, t + b);
    assert y.buf[..b] == s[t..t + b];
    assert y.buf[a..b] == y.buf[..b][a..];
  }

  //------------------------------------------------------------------------------
  // Runs in the stream

  /** The character starting at `i` is `next`; `None` when `i` is the end of the stream. */
  predicate NextAt(s: Bytes, i: nat, next: Option<char>) {
    && i <= |s| && (next.None? <==> i == |s|)
    && (next.Some? ==> EncodeChar(next.value) <= s[i..])
  }

  /** `text` starts the stream at `start`, is valid text whose characters `p` accepts, and is followed by `next`. */
  predicate RunAt(s: Bytes, start: nat, text: Bytes, next: Option<char>, p: char -> bool) {
    && start + |text| <= |s| && text == s[start..start + |text|]
    && ValidUtf8(text) && AllChars(text, p)
    && NextAt(s, start + |text|, next)
  }

  /** In addition, the run is a longest one: the character after it is rejected, or the stream ends there. */
  predicate MaximalRun(s: Bytes, start: nat, text: Bytes, next: Option<char>, p: char -> bool) {
    RunAt(s, start, text, next, p) && (next.Some? ==> !p(next.value))
  }

  /** A lead byte fixes the width, so at most one character starts at a position. */
  lemma SameCharAt(s: Bytes, c1: char, c2: char)
    requires EncodeChar(c1) <= s && EncodeChar(c2) <= s
    ensures c1 == c2
  {
    var e1, e2 := EncodeChar(c1), EncodeChar(c2);
    assert e1[0] == s[0] == e2[0];
    assert e1 == s[..|e1|] == e2;
    DecodeEncodeChar(c1);
    DecodeEncodeChar(c2);
  }

  /** The first decoded character of non-empty valid text is its first character. */
  lemma FirstDecoded(b: Bytes)
    requires ValidUtf8(b) && |b| > 0
    ensures FirstChar(b).Some? && DecodeStr(b)[0] == FirstChar(b).value
  {
  }

  /** Valid text that extends valid text splits into the two, character by character. */
  lemma SplitText(ab: Bytes, a: Bytes, b: Bytes)
    requires ab == a + b && ValidUtf8(ab) && ValidUtf8(a)
    ensures ValidUtf8(b) && DecodeStr(ab) == DecodeStr(a) + DecodeStr(b)
  {
    assert ab[..|a|] == a && ab[|a|..] == b;
    ValidSplit(ab, |a|);
    DecodeConcat(a, b);
  }

  lemma SplitRun(s: Bytes, start: nat, e1: nat, e2: nat)
    requires start <= e1 <= e2 <= |s| && ValidUtf8(s[start..e1]) && ValidUtf8(s[start..e2])
    ensures ValidUtf8(s[e1..e2])
    ensures DecodeStr(s[start..e2]) == DecodeStr(s[start..e1]) + DecodeStr(s[e1..e2])
  {
    var ab, a, b := s[start..e2], s[start..e1], s[e1..e2];
    assert ab == a + b;
    SplitText(ab, a, b);
  }

  /** The first character of valid text that starts at `i` is the character at `i`. */
  lemma FirstCharAt(s: Bytes, i: nat, j: nat)
    requires i < j <= |s| && ValidUtf8(s[i..j])
    ensures FirstChar(s[i..j]).Some? && EncodeChar(FirstChar(s[i..j]).value) <= s[i..]
  {
    var d := FirstChar(s[i..j]).value;
    var n := LenUtf8(d);
    assert s[i..j][..n] == s[i..i + n] == s[i..][..n];
  }

  /** A longer run of accepted characters continues past a shorter one with an accepted character. */
  lemma LongerRunContinues(s: Bytes, start: nat, e1: nat, e2: nat, next: Option<char>, p: char -> bool)
    requires start <= e1 < e2 <= |s| && NextAt(s, e1, next)
    requires ValidUtf8(s[start..e1]) && ValidUtf8(s[start..e2]) && AllChars(s[start..e2], p)
    ensures next.Some? && p(next.value)
  {
    SplitRun(s, start, e1, e2);
    var b := s[e1..e2];
    FirstDecoded(b);
    FirstCharAt(s, e1, e2);
    var d := FirstChar(b).value;
    var k := |DecodeStr(s[start..e1])|;
    assert DecodeStr(s[start..e2])[k] == d;
    SameCharAt(s[e1..], d, next.value);
  }

  /** From a given start there is exactly one maximal run, and the character after it is determined. */
  lemma MaximalRunUnique(s: Bytes, start: nat, t1: Bytes, n1: Option<char>, t2: Bytes, n2: Option<char>, p: char -> bool)
    requires MaximalRun(s, start, t1, n1, p) && MaximalRun(s, start, t2, n2, p)
    ensures t1 == t2 && n1 == n2
  {
    var e1, e2 := start + |t1|, start + |t2|;
    if e1 < e2 {
      LongerRunContinues(s, start, e1, e2, n1, p);
    } else if e2 < e1 {
      LongerRunContinues(s, start, e2, e1, n2, p);
    } else if n1.Some? {
      SameCharAt(s[e1..], n1.value, n2.value);
    }
  }

  //------------------------------------------------------------------------------
  // The span of a scan

  /**
   * What every scan leaves behind: a reader over the same stream whose buffer
   * was not compacted, a span of text from the scan's start whose characters
   * `p` accepts, found at the scan's starting buffer offset, and the
   * character after it (`None` at the end of the stream).
   */
  predicate Ran(r: Reader, r': Reader, p: char -> bool, text: Bytes, next: Option<char>)
    requires Valid(r)
  {
    && Valid(r') && Pinned(r, r') && r'.src.stream == r.src.stream
    && Consumed(r) + |text| <= ValidEnd(r')
    && r.offConsumed + |text| <= |r'.buf| && text == r'.buf[r.offConsumed..r.offConsumed + |text|]
    && RunAt(r.src.stream, Consumed(r), text, next, p)
  }

  //------------------------------------------------------------------------------
  // take_while

  /**
   * What `take_while(p)` promises: the span is the longest run of text from
   * the cursor whose characters `p` accepts; it is consumed, and the
   * character after it is rejected by `p` or the stream ends there. The
   * rejected character is peeked, not consumed.
   */
  predicate TookWhile(r: Reader, p: char -> bool, sc: Scanned)
    requires Valid(r)
  {
    var r' := sc.reader;
    && Ran(r, r', p, sc.span, sc.next)
    && PeekSound(r') && Consumed(r') == Consumed(r) + |sc.span|
    && sc.next == NextChar(r')
    && (sc.next.None? ==> Exhausted(r'))
    && (sc.next.Some? ==> !p(sc.next.value))
  }

  /**
   * The loop invariant of the scanners: the text from the scan's start to
   * where the cursor will be once the peeked character is taken is a run of
   * characters `p` accepts.
   */
  predicate RunFrom(r: Reader, cur: Reader, p: char -> bool)
    requires Valid(r)
  {
    && Valid(cur) && PeekSound(cur) && Pinned(r, cur) && cur.src.stream == r.src.stream
    && Consumed(r) <= Consumed(cur) && ValidEnd(r) <= ValidEnd(cur)
    && Cursor(cur) <= ValidEnd(cur) <= |r.src.stream|
    && ValidUtf8(r.src.stream[Consumed(r)..Cursor(cur)])
    && AllChars(r.src.stream[Consumed(r)..Cursor(cur)], p)
  }

  lemma RunStart(r: Reader, p: char -> bool)
    requires Valid(r)
    ensures RunFrom(r, r.(peeked := None), p)
  {
    SetPeeked(r, None);
    EmptyRun(r.src.stream, Consumed(r), p);
  }

  /** Peeking an accepted character extends the run to its end. */
  lemma RunStep(r: Reader, cur: Reader, p: char -> bool, q: Peeked, c: char)
    requires Valid(r) && RunFrom(r, cur, p)
    requires PeekedFrom(cur, q) && q.ch == Some(c) && p(c)
    ensures RunFrom(r, q.reader, p)
    ensures Cursor(q.reader) == Cursor(cur) + LenUtf8(c)
    ensures CharCount(r.src.stream[Consumed(r)..Cursor(q.reader)])
         == CharCount(r.src.stream[Consumed(r)..Cursor(cur)]) + 1
  {
    var s := r.src.stream;
    var r1 := q.reader;
    var start, mid, end := Consumed(r), Cursor(cur), Cursor(r1);
    assert Consumed(r1) == mid && end == mid + LenUtf8(c);
    NextCharBytes(r1, c);
    assert s[mid..end] == EncodeChar(c);
    ExtendRun(s, start, mid, end, c, p);
  }

  /** The character at the cursor, as a fact about the stream. */
  lemma NextAtCursor(r: Reader, ch: Option<char>)
    requires Valid(r) && ch == NextChar(r) && (ch.None? ==> Exhausted(r))
    ensures NextAt(r.src.stream, Consumed(r), ch)
  {
    var s, i := r.src.stream, Consumed(r);
    if ch.Some? {
      NextCharBytes(r, ch.value);
      assert s[i..][..LenUtf8(ch.value)] == s[i..i + LenUtf8(ch.value)];
    }
  }

  /** A span of accepted text from the scan's start to the cursor of a reader that was not compacted. */
  lemma RanTo(r: Reader, r1: Reader, p: char -> bool, next: Option<char>)
    requires Valid(r) && Valid(r1) && Pinned(r, r1) && r1.src.stream == r.src.stream
    requires Consumed(r) <= Consumed(r1)
    requires ValidUtf8(r.src.stream[Consumed(r)..Consumed(r1)])
    requires AllChars(r.src.stream[Consumed(r)..Consumed(r1)], p)
    requires NextAt(r.src.stream, Consumed(r1), next)
    ensures Ran(r, r1, p, r.src.stream[Consumed(r)..Consumed(r1)], next)
  {
    var s, start, m := r.src.stream, Consumed(r), Consumed(r1);
    PinnedSpan(r, r1);
    SliceRun(s, start, m, next, p);
    assert r.offConsumed + (m - start) == r1.offConsumed <= r1.offValid;
  }

  /** A valid stretch of accepted characters, with its next character, is a run. */
  lemma SliceRun(s: Bytes, start: nat, m: nat, next: Option<char>, p: char -> bool)
    requires start <= m <= |s| && ValidUtf8(s[start..m]) && AllChars(s[start..m], p)
    requires NextAt(s, m, next)
    ensures RunAt(s, start, s[start..m], next, p) && |s[start..m]| == m - start
  {
  }

  /** Whatever was peeked last, the run ends at the cursor of the reader that peeked it. */
  lemma RunEnded(r: Reader, cur: Reader, p: char -> bool, q: Peeked)
    requires Valid(r) && RunFrom(r, cur, p) && PeekedFrom(cur, q)
    ensures var text := r.src.stream[Consumed(r)..Consumed(q.reader)];
      && Consumed(q.reader) == Cursor(cur) == Consumed(r) + |text|
      && Ran(r, q.reader, p, text, q.ch)
      && PeekSound(q.reader) && q.ch == NextChar(q.reader)
      && (q.ch.None? ==> Exhausted(q.reader))
  {
    var r1 := q.reader;
    assert Consumed(r1) == Cursor(cur);
    assert Pinned(r, r1) by {
      assert r.buf <= cur.buf <= r1.buf;
    }
    NextAtCursor(r1, q.ch);
    RanTo(r, r1, p, q.ch);
  }

  /** Peeking the end of the stream or a rejected character ends `take_while`. */
  lemma RunStop(r: Reader, cur: Reader, p: char -> bool, q: Peeked)
    requires Valid(r) && RunFrom(r, cur, p) && PeekedFrom(cur, q)
    requires q.ch.Some? ==> !p(q.ch.value)
    ensures TookWhile(r, p, Scanned(q.reader, r.src.stream[Consumed(r)..Consumed(q.reader)], q.ch))
  {
    RunEnded(r, cur, p, q);
  }

  /**
   * `take_while(p)`: clears the stale look-ahead slot, then takes characters
   * while `p` accepts them.
   */
  method TakeWhile(r: Reader, p: char -> bool) returns (res: Result<Scanned, Error>)
    requires Valid(r)
    ensures res.Success? ==> TookWhile(r, p, res.value)
    ensures res.Failure? ==> Explains(res.error, Unvalidated(r))
  {
    var s := r.src.stream;
    var cur := r.(peeked := None);
    RunStart(r, p);
    while true
      invariant RunFrom(r, cur, p)
      decreases |s| - Cursor(cur)
    {
      var q := Peeking(cur);
      if q.Failure? {
        ExplainsEarlier(r, cur, q.error);
        return Failure(q.error);
      }
      if q.value.ch.None? || !p(q.value.ch.value) {
        RunStop(r, cur, p, q.value);
        return Success(Scanned(q.value.reader, s[Consumed(r)..Consumed(q.value.reader)], q.value.ch));
      }
      RunStep(r, cur, p, q.value, q.value.ch.value);
      cur := q.value.reader;
    }
  }

  /** `take_while` is determined by the stream: any two results from the same reader have the same span and stop at the same character. */
  lemma TakeWhileUnique(r: Reader, p: char -> bool, a: Scanned, b: Scanned)
    requires Valid(r) && TookWhile(r, p, a) && TookWhile(r, p, b)
    ensures a.span == b.span && a.next == b.next
  {
    var s, i := r.src.stream, Consumed(r);
    assert MaximalRun(s, i, a.span, a.next, p) && MaximalRun(s, i, b.span, b.next, p);
    MaximalRunUnique(s, i, a.span, a.next, b.span, b.next, p);
  }

  //------------------------------------------------------------------------------
  // take_times

  /**
   * What `take_times(p, range)` promises. The scan takes accepted characters
   * while their count is within the range's end bound, so it overruns that
   * bound by at most one character. If the count is in the range the span is
   * consumed and is a longest run; otherwise the cursor goes back to where
   * it was and the span is handed back as rejected. Either way the character
   * after the span is reported.
   */
  predicate TookTimes(r: Reader, p: char -> bool, range: Range, c: Counted)
    requires Valid(r)
  {
    var r', text := c.reader, c.span.text;
    && Ran(r, r', p, text, c.next)
    && (CharCount(text) > 0 ==> BelowEnd(range.end, CharCount(text) - 1))
    && (c.span.Accepted? ==>
      && Contains(range, CharCount(text))
      && PeekSound(r') && Consumed(r') == Consumed(r) + |text| && c.next == NextChar(r')
      && (c.next.Some? ==> !p(c.next.value)))
    && (c.span.Rejected? ==>
      && !Contains(range, CharCount(text))
      && Consumed(r') == Consumed(r)
      && (c.next.Some? && p(c.next.value) ==> !BelowEnd(range.end, CharCount(text))))
  }

  /** Giving the span back: the cursor returns to the scan's start, which is a character boundary. */
  lemma Restore(r: Reader, r': Reader, p: char -> bool, text: Bytes, next: Option<char>)
    requires Valid(r) && Ran(r, r', p, text, next) && Consumed(r') == Consumed(r) + |text|
    ensures Ran(r, r'.(offConsumed := r.offConsumed), p, text, next)
    ensures Consumed(r'.(offConsumed := r.offConsumed)) == Consumed(r)
  {
    var r2 := r'.(offConsumed := r.offConsumed);
    assert r2.totConsumed == r.totConsumed && Consumed(r2) == Consumed(r) && r2.buf == r'.buf;
    assert Accounted(r2);
    assert Sound(r2);
  }

  /**
   * The end of `take_times`: the run ended at the peeked character; the span
   * is kept if the count is in the range, and given back otherwise.
   */
  function Settle(r: Reader, cur: Reader, p: char -> bool, range: Range, q: Peeked, times: nat): (c: Counted)
    requires Valid(r) && Counting(r, cur, p, range, times) && PeekedFrom(cur, q)
    requires q.ch.Some? ==> !(BelowEnd(range.end, times) && p(q.ch.value))
    ensures TookTimes(r, p, range, c)
  {
    var r1 := q.reader;
    var text := r.src.stream[Consumed(r)..Consumed(r1)];
    RunEnded(r, cur, p, q);
    if Contains(range, times) then
      Counted(r1, Accepted(text), q.ch)
    else
      Restore(r, r1, p, text, q.ch);
      Counted(r1.(offConsumed := r.offConsumed), Rejected(text), q.ch)
  }

  /**
   * `take_times(p, range)`: clears the stale look-ahead slot, then takes
   * characters while `p` accepts them and the count so far is within the
   * end bound; keeps the span if the count is in the range and gives it
   * back otherwise. The look-ahead slot is left as it was, so after a
   * rejection it no longer describes the character at the cursor.
   */
  method TakeTimes(r: Reader, p: char -> bool, range: Range) returns (res: Result<Counted, Error>)
    requires Valid(r)
    ensures res.Success? ==> TookTimes(r, p, range, res.value)
    ensures res.Failure? ==> Explains(res.error, Unvalidated(r))
  {
    var s := r.src.stream;
    var cur := r.(peeked := None);
    RunStart(r, p);
    var times := 0;
    while true
      invariant Counting(r, cur, p, range, times)
      decreases |s| - Cursor(cur)
    {
      var q := Peeking(cur);
      if q.Failure? {
        ExplainsEarlier(r, cur, q.error);
        return Failure(q.error);
      }
      if q.value.ch.None? || !(BelowEnd(range.end, times) && p(q.value.ch.value)) {
        return Success(Settle(r, cur, p, range, q.value, times));
      }
      CountStep(r, cur, p, range, q.value, times);
      times := times + 1;
      cur := q.value.reader;
    }
  }

  /** The loop invariant of `take_times`: a run whose count was within the end bound before each character was taken. */
  predicate Counting(r: Reader, cur: Reader, p: char -> bool, range: Range, times: nat)
    requires Valid(r)
  {
    && RunFrom(r, cur, p)
    && times == CharCount(r.src.stream[Consumed(r)..Cursor(cur)])
    && (times > 0 ==> BelowEnd(range.end, times - 1))
  }

  lemma CountStep(r: Reader, cur: Reader, p: char -> bool, range: Range, q: Peeked, times: nat)
    requires Valid(r) && Counting(r, cur, p, range, times) && PeekedFrom(cur, q)
    requires q.ch.Some? && BelowEnd(range.end, times) && p(q.ch.value)
    ensures Counting(r, q.reader, p, range, times + 1)
    ensures Cursor(q.reader) > Cursor(cur)
  {
    RunStep(r, cur, p, q, q.ch.value);
  }

  /**
   * Without an end bound, `take_times` finds the same span and next
   * character as `take_while`, and keeps the span exactly when its count is
   * above the start bound.
   */
  lemma TakeTimesUnbounded(r: Reader, p: char -> bool, range: Range, c: Counted, sc: Scanned)
    requires Valid(r) && range.end.Unbounded?
    requires TookTimes(r, p, range, c) && TookWhile(r, p, sc)
    ensures c.span.text == sc.span && c.next == sc.next
    ensures c.span.Accepted? <==> AboveStart(range.start, CharCount(sc.span))
  {
    var s, i := r.src.stream, Consumed(r);
    assert MaximalRun(s, i, c.span.text, c.next, p) && MaximalRun(s, i, sc.span, sc.next, p);
    MaximalRunUnique(s, i, c.span.text, c.next, sc.span, sc.next, p);
  }

  //------------------------------------------------------------------------------
  // until

  /** `t` occurs in the stream at position `m`. */
  predicate OccursAt(s: Bytes, m: nat, t: Bytes) {
    m <= |s| && t <= s[m..]
  }

  /** `t` occurs at no position in `[lo, hi)`. */
  predicate NoneBetween(s: Bytes, t: Bytes, lo: nat, hi: nat) {
    forall j | lo <= j < hi :: !OccursAt(s, j, t)
  }

  /** The byte `b` is not in `s[lo..hi]`. */
  predicate NoByte(s: Bytes, b: byte, lo: nat, hi: nat)
    requires lo <= hi <= |s|
  {
    forall j | lo <= j < hi :: s[j] != b
  }

  /** The first occurrence of `t` at or after `i`: the reference the search is measured against. */
  function Find(s: Bytes, i: nat, t: Bytes): Option<nat>
    requires i <= |s|
    decreases |s| - i
  {
    if OccursAt(s, i, t) then Some(i)
    else if i == |s| then None
    else Find(s, i + 1, t)
  }

  lemma {:induction false} FindFirst(s: Bytes, i: nat, t: Bytes, m: nat)
    requires i <= m <= |s| && OccursAt(s, m, t) && NoneBetween(s, t, i, m)
    ensures Find(s, i, t) == Some(m)
    decreases m - i
  {
    if i < m {
      assert !OccursAt(s, i, t);
      FindFirst(s, i + 1, t, m);
    }
  }

  lemma {:induction false} FindNone(s: Bytes, i: nat, t: Bytes)
    requires i <= |s| && |t| > 0 && NoneBetween(s, t, i, |s|)
    ensures Find(s, i, t) == None
    decreases |s| - i
  {
    if i < |s| {
      assert !OccursAt(s, i, t);
      FindNone(s, i + 1, t);
    }
  }

  /** `Iterator::position`: the index of the first `b` in `c`. */
  function Position(c: Bytes, b: byte): (i: Option<nat>)
    ensures i.Some? ==> i.value < |c| && c[i.value] == b
    ensures i.Some? ==> forall j | 0 <= j < i.value :: c[j] != b
    ensures i.None? ==> forall j | 0 <= j < |c| :: c[j] != b
  {
    if |c| == 0 then None
    else if c[0] == b then Some(0)
    else
      match Position(c[1..], b)
      case None => None
      case Some(k) => Some(k + 1)
  }

  /**
   * The loop invariant of the first search of `until`: the cursor moved
   * forward, byte by byte, over no `b`; the buffer was not compacted.
   */
  predicate Seeking(cur: Reader, x: Reader, b: byte) {
    var s := cur.src.stream;
    && Sound(cur) && Sound(x) && Pinned(cur, x) && x.src.stream == s
    && Consumed(cur) <= Consumed(x) && ValidEnd(cur) <= ValidEnd(x)
    && NoByte(s, b, Consumed(cur), Consumed(x))
  }

  /** Where the first search leaves the reader: on the next `b`, or at the end of a stream that has no more of them. */
  predicate Sought(cur: Reader, x: Reader, b: byte, found: bool) {
    var s := cur.src.stream;
    && Seeking(cur, x, b)
    && (found ==> Consumed(x) < ValidEnd(x) && s[Consumed(x)] == b)
    && (!found ==> x.eof && NoByte(s, b, Consumed(cur), |s|))
  }

  /** No `b` in the content: the cursor moves to its end. */
  lemma SkipContent(cur: Reader, x: Reader, b: byte)
    requires Seeking(cur, x, b)
    requires forall j | 0 <= j < |Content(x)| :: Content(x)[j] != b
    ensures Seeking(cur, Advance(x, |Content(x)|), b)
  {
    var s, c := cur.src.stream, Content(x);
    var x1 := Advance(x, |c|);
    forall j | Consumed(x) <= j < Consumed(x1)
      ensures s[j] != b
    {
      assert s[j] == c[j - Consumed(x)];
    }
  }

  /** Pulling more keeps the search facts. */
  lemma SeekPulled(cur: Reader, x: Reader, y: Reader, b: byte)
    requires Seeking(cur, x, b) && Sound(y) && Grows(x, y) && Pinned(x, y)
    ensures Seeking(cur, y, b)
  {
  }

  /** The first `b` in the content is the next `b` in the stream. */
  lemma SeekFound(cur: Reader, x: Reader, b: byte, i: nat)
    requires Seeking(cur, x, b) && i < |Content(x)| && Content(x)[i] == b
    requires forall j | 0 <= j < i :: Content(x)[j] != b
    ensures Sought(cur, Advance(x, i), b, true)
  {
    var s, c := cur.src.stream, Content(x);
    var x1 := Advance(x, i);
    forall j | Consumed(x) <= j < Consumed(x1)
      ensures s[j] != b
    {
      assert s[j] == c[j - Consumed(x)];
    }
    assert s[Consumed(x1)] == c[i];
  }

  /** No `b` in the content of an ended source: there is none in the rest of the stream. */
  lemma SeekEnd(cur: Reader, x: Reader, b: byte)
    requires Seeking(cur, x, b) && x.eof
    requires forall j | 0 <= j < |Content(x)| :: Content(x)[j] != b
    ensures Sought(cur, x, b, false)
  {
    var s, c := cur.src.stream, Content(x);
    forall j | Consumed(x) <= j < |s|
      ensures s[j] != b
    {
      assert s[j] == c[j - Consumed(x)];
    }
  }

  /**
   * The first search of `until`: looks for `b` in the content; when it is
   * not there, moves the cursor over the content and pulls more without
   * compaction, until `b` turns up or the source has ended.
   */
  method SeekByte(cur: Reader, b: byte) returns (res: Result<Checked, Error>)
    requires Sound(cur)
    ensures res.Success? ==> Sought(cur, res.value.reader, b, res.value.ok)
    ensures res.Failure? ==> Explains(res.error, Unvalidated(cur))
  {
    var s := cur.src.stream;
    var x := cur;
    while true
      invariant Seeking(cur, x, b)
      decreases |s| - ValidEnd(x), if x.eof then 0 else 1
    {
      var content := Content(x);
      match Position(content, b)
      case Some(i) =>
        SeekFound(cur, x, b, i);
        return Success(Checked(Advance(x, i), true));
      case None =>
        if x.eof {
          SeekEnd(cur, x, b);
          return Success(Checked(x, false));
        }
        SkipContent(cur, x, b);
        var x1 := Advance(x, |content|);
        var y := PullMore(x1);
        if y.Failure? {
          ExplainsEarlier(cur, x1, y.error);
          return Failure(y.error);
        }
        SeekPulled(cur, x1, y.value, b);
        x := y.value;
    }
  }

  /**
   * What `until(t)` finds in the stream from `start` for the terminator `tb`:
   * either the text up to the first occurrence of `tb`, or, when `tb` does
   * not occur, the rest of the stream. The text is valid.
   */
  predicate SpanUntil(s: Bytes, start: nat, tb: Bytes, span: Span) {
    var text := span.text;
    var end := start + |text|;
    && end <= |s| && text == s[start..end] && ValidUtf8(text)
    && (span.Accepted? ==> OccursAt(s, end, tb) && NoneBetween(s, tb, start, end))
    && (span.Rejected? ==> end == |s| && NoneBetween(s, tb, start, |s|))
  }

  /**
   * What `until(t)` promises for a non-empty terminator `tb`: the span is
   * `SpanUntil`, found at the scan's starting buffer offset. If `tb` was
   * found the cursor moves past it; otherwise the source has ended and the
   * cursor stays.
   */
  predicate FoundUntil(r: Reader, tb: Bytes, f: Found)
    requires Valid(r)
  {
    var r', text := f.reader, f.span.text;
    && Valid(r') && Pinned(r, r') && r'.src.stream == r.src.stream
    && SpanUntil(r.src.stream, Consumed(r), tb, f.span)
    && r.offConsumed + |text| <= |r'.buf| && text == r'.buf[r.offConsumed..r.offConsumed + |text|]
    && (f.span.Accepted? ==> Consumed(r') == Consumed(r) + |text| + |tb|)
    && (f.span.Rejected? ==> Consumed(r') == Consumed(r) && r'.eof)
  }

  /** The loop invariant of `until`: `tb` does not occur between the scan's start and the cursor. */
  predicate Searching(r: Reader, cur: Reader, tb: Bytes)
    requires Valid(r)
  {
    && Sound(cur) && Pinned(r, cur) && cur.src.stream == r.src.stream
    && Consumed(r) <= Consumed(cur) && ValidEnd(r) <= ValidEnd(cur)
    && NoneBetween(r.src.stream, tb, Consumed(r), Consumed(cur))
  }

  /** Where the first byte of `tb` is absent, `tb` does not occur. */
  lemma NoByteNoOccurrence(s: Bytes, tb: Bytes, lo: nat, hi: nat)
    requires |tb| > 0 && lo <= hi <= |s| && NoByte(s, tb[0], lo, hi)
    ensures NoneBetween(s, tb, lo, hi)
  {
    forall j | lo <= j < hi
      ensures !OccursAt(s, j, tb)
    {
      assert s[j] != tb[0] && s[j..][0] == s[j];
    }
  }

  lemma NoneJoin(s: Bytes, tb: Bytes, lo: nat, mid: nat, hi: nat)
    requires lo <= mid <= hi && NoneBetween(s, tb, lo, mid) && NoneBetween(s, tb, mid, hi)
    ensures NoneBetween(s, tb, lo, hi)
  {
  }

  /** A UTF-8 string starts with a lead byte, so where it occurs in valid text a character starts. */
  lemma OccurrenceOnBoundary(s: Bytes, v: nat, m: nat, tb: Bytes)
    requires m < v <= |s| && ValidUtf8(s[..v]) && |tb| > 0 && ValidUtf8(tb) && s[m] == tb[0]
    ensures ValidUtf8(s[..m])
  {
    assert !IsTail(tb[0]);
    var pre := s[..v];
    assert pre[m] == s[m] && pre[..m] == s[..m];
    BoundaryIsValidPrefix(pre, m);
  }

  /** A mismatch at the found byte: the search goes on one byte further. */
  lemma SearchOn(r: Reader, cur: Reader, x: Reader, y: Reader, tb: Bytes)
    requires Valid(r) && |tb| > 0 && Searching(r, cur, tb) && Sought(cur, x, tb[0], true)
    requires Sound(y) && Grows(x, y) && Pinned(x, y) && |Content(y)| >= |tb|
    requires Content(y)[..|tb|] != tb
    ensures Searching(r, Advance(y, 1), tb) && Consumed(Advance(y, 1)) > Consumed(cur)
  {
    var s, m := r.src.stream, Consumed(y);
    NoByteNoOccurrence(s, tb, Consumed(cur), m);
    PrefixDecision(s, m, ValidEnd(y), tb);
  }

  /** Giving up: the cursor goes back to the scan's start and the rest of the stream is the span. */
  function GiveUp(r: Reader, y: Reader, tb: Bytes): (f: Found)
    requires Valid(r) && Sound(y) && Pinned(r, y) && y.src.stream == r.src.stream && y.eof
    requires Consumed(r) <= Consumed(y) && NoneBetween(r.src.stream, tb, Consumed(r), |r.src.stream|)
    ensures FoundUntil(r, tb, f) && f.span.Rejected?
  {
    GiveBack(r, y, tb);
    Found(y.(offConsumed := r.offConsumed), Rejected(y.buf[r.offConsumed..y.offValid]))
  }

  lemma GiveBack(r: Reader, y: Reader, tb: Bytes)
    requires Valid(r) && Sound(y) && Pinned(r, y) && y.src.stream == r.src.stream && y.eof
    requires Consumed(r) <= Consumed(y) && NoneBetween(r.src.stream, tb, Consumed(r), |r.src.stream|)
    ensures FoundUntil(r, tb, Found(y.(offConsumed := r.offConsumed), Rejected(y.buf[r.offConsumed..y.offValid])))
  {
    var s, start := r.src.stream, Consumed(r);
    var r' := y.(offConsumed := r.offConsumed);
    Restored(r, y);
    BufSlice(y, r.offConsumed, y.offValid);
    var text := y.buf[r.offConsumed..y.offValid];
    assert text == s[start..|s|] && start + |text| == |s|;
    RestSpan(s, start, tb);
    RejectFound(r, r', text, tb);
  }

  /** The cursor back at the scan's start of an ended source. */
  lemma Restored(r: Reader, y: Reader)
    requires Valid(r) && Sound(y) && Pinned(r, y) && y.src.stream == r.src.stream && y.eof
    requires Consumed(r) <= Consumed(y)
    ensures var r' := y.(offConsumed := r.offConsumed);
      Valid(r') && Consumed(r') == Consumed(r) && ValidEnd(y) == |r.src.stream| && r.offConsumed <= y.offValid
    ensures ValidUtf8(r.src.stream)
  {
    var s := r.src.stream;
    var r' := y.(offConsumed := r.offConsumed);
    assert ValidEnd(y) == |s| && s[..|s|] == s;
    assert r'.totConsumed == r.totConsumed && Consumed(r') == Consumed(r);
    assert Accounted(r');
    assert Sound(r');
  }

  /** The rest of a stream with no occurrence is the span `until` gives back. */
  lemma RestSpan(s: Bytes, start: nat, tb: Bytes)
    requires start <= |s| && ValidUtf8(s[..start]) && ValidUtf8(s) && NoneBetween(s, tb, start, |s|)
    ensures SpanUntil(s, start, tb, Rejected(s[start..|s|]))
  {
    assert s[..|s|] == s;
    ValidSlice(s, start, |s|);
  }

  /** The facts `FoundUntil` gathers for a span given back. */
  lemma RejectFound(r: Reader, r': Reader, text: Bytes, tb: Bytes)
    requires Valid(r) && Valid(r') && Pinned(r, r') && r'.src.stream == r.src.stream && r'.eof
    requires r.offConsumed + |text| <= |r'.buf| && text == r'.buf[r.offConsumed..r.offConsumed + |text|]
    requires SpanUntil(r.src.stream, Consumed(r), tb, Rejected(text))
    requires Consumed(r') == Consumed(r)
    ensures FoundUntil(r, tb, Found(r', Rejected(text)))
  {
  }

  /** The source ended with no more of the first byte of `tb`. */
  lemma GiveUpAtEnd(r: Reader, cur: Reader, x: Reader, tb: Bytes)
    requires Valid(r) && |tb| > 0 && Searching(r, cur, tb) && Sought(cur, x, tb[0], false)
    ensures Sound(x) && Pinned(r, x) && x.src.stream == r.src.stream && x.eof
    ensures Consumed(r) <= Consumed(x) && NoneBetween(r.src.stream, tb, Consumed(r), |r.src.stream|)
  {
    NoByteNoOccurrence(r.src.stream, tb, Consumed(cur), |r.src.stream|);
  }

  /** The source ended with too few bytes left for `tb`. */
  lemma GiveUpShort(r: Reader, cur: Reader, x: Reader, y: Reader, tb: Bytes)
    requires Valid(r) && |tb| > 0 && Searching(r, cur, tb) && Sought(cur, x, tb[0], true)
    requires Sound(y) && Grows(x, y) && Pinned(x, y) && y.eof && |Content(y)| < |tb|
    ensures Sound(y) && Pinned(r, y) && y.src.stream == r.src.stream && y.eof
    ensures Consumed(r) <= Consumed(y) && NoneBetween(r.src.stream, tb, Consumed(r), |r.src.stream|)
  {
    var s := r.src.stream;
    NoByteNoOccurrence(s, tb, Consumed(cur), Consumed(x));
    forall j | Consumed(y) <= j < |s|
      ensures !OccursAt(s, j, tb)
    {
    }
  }

  /**
   * In the stream: no `tb` in `[start, c)`, no first byte of `tb` in
   * `[c, m)`, and `tb` in the valid text at `m`. Then the text from `start`
   * to `m` is the span `until` finds, and `m` is a character boundary.
   */
  lemma MatchSpan(s: Bytes, tb: Bytes, start: nat, c: nat, m: nat, v: nat)
    requires start <= c <= m && m + |tb| <= v <= |s| && |tb| > 0 && ValidUtf8(tb)
    requires ValidUtf8(s[..start]) && ValidUtf8(s[..v])
    requires NoneBetween(s, tb, start, c) && NoByte(s, tb[0], c, m)
    requires s[m..v][..|tb|] == tb
    ensures ValidUtf8(s[..m]) && SpanUntil(s, start, tb, Accepted(s[start..m]))
  {
    NoByteNoOccurrence(s, tb, c, m);
    NoneJoin(s, tb, start, c, m);
    PrefixDecision(s, m, v, tb);
    OccurrenceOnBoundary(s, v, m, tb);
    ValidSlice(s, start, m);
  }

  /** What the search knows when `tb` is at the cursor of `y`. */
  lemma MatchAt(r: Reader, cur: Reader, x: Reader, y: Reader, tb: Bytes)
    requires Valid(r) && |tb| > 0 && ValidUtf8(tb) && Searching(r, cur, tb) && Sought(cur, x, tb[0], true)
    requires Sound(y) && Grows(x, y) && Pinned(x, y) && |Content(y)| >= |tb|
    requires Content(y)[..|tb|] == tb
    ensures Valid(y) && Pinned(r, y) && y.src.stream == r.src.stream && Consumed(r) <= Consumed(y)
    ensures SpanUntil(r.src.stream, Consumed(r), tb, Accepted(r.src.stream[Consumed(r)..Consumed(y)]))
  {
    var s, m, v := r.src.stream, Consumed(y), ValidEnd(y);
    assert Content(y) == s[m..v];
    MatchSpan(s, tb, Consumed(r), Consumed(cur), m, v);
    assert r.buf <= x.buf <= y.buf;
  }

  /** Moving the cursor over valid text keeps the reader valid. */
  lemma AdvanceOver(y: Reader, tb: Bytes)
    requires Valid(y) && |Content(y)| >= |tb| && Content(y)[..|tb|] == tb && ValidUtf8(tb)
    ensures Valid(Advance(y, |tb|)) && Advance(y, |tb|) == y.(offConsumed := y.offConsumed + |tb|)
  {
  }

  /** The facts `FoundUntil` gathers for a span that ends at an occurrence. */
  lemma AcceptFound(r: Reader, y': Reader, text: Bytes, tb: Bytes)
    requires Valid(r) && Valid(y') && Pinned(r, y') && y'.src.stream == r.src.stream
    requires r.offConsumed + |text| <= |y'.buf| && text == y'.buf[r.offConsumed..r.offConsumed + |text|]
    requires SpanUntil(r.src.stream, Consumed(r), tb, Accepted(text))
    requires Consumed(y') == Consumed(r) + |text| + |tb|
    ensures FoundUntil(r, tb, Found(y', Accepted(text)))
  {
  }

  /** Consuming the span and the terminator. */
  lemma Accept(r: Reader, y: Reader, y': Reader, tb: Bytes)
    requires Valid(r) && Sound(y) && Pinned(r, y) && y.src.stream == r.src.stream && Consumed(r) <= Consumed(y)
    requires Valid(y') && y' == y.(offConsumed := y.offConsumed + |tb|)
    requires SpanUntil(r.src.stream, Consumed(r), tb, Accepted(r.src.stream[Consumed(r)..Consumed(y)]))
    ensures FoundUntil(r, tb, Found(y', Accepted(y.buf[r.offConsumed..y.offConsumed])))
  {
    var s, start, m := r.src.stream, Consumed(r), Consumed(y);
    PinnedSpan(r, y);
    var text := y.buf[r.offConsumed..y.offConsumed];
    assert text == s[start..m];
    AcceptFound(r, y', text, tb);
  }

  /** `tb` found at the cursor: the span ends there and the cursor moves past it. */
  function Terminated(r: Reader, cur: Reader, x: Reader, y: Reader, tb: Bytes): (f: Found)
    requires Valid(r) && |tb| > 0 && ValidUtf8(tb) && Searching(r, cur, tb) && Sought(cur, x, tb[0], true)
    requires Sound(y) && Grows(x, y) && Pinned(x, y) && |Content(y)| >= |tb|
    requires Content(y)[..|tb|] == tb
    ensures FoundUntil(r, tb, f) && f.span.Accepted?
  {
    MatchAt(r, cur, x, y, tb);
    AdvanceOver(y, tb);
    Accept(r, y, Advance(y, |tb|), tb);
    Found(Advance(y, |tb|), Accepted(y.buf[r.offConsumed..y.offConsumed]))
  }

  /**
   * `until(t)`: an empty terminator is refused. Otherwise the scan looks for
   * the first byte of `t`, then pulls until enough bytes are there to
   * compare all of `t`; a mismatch moves one byte on. The buffer is never
   * compacted during the scan.
   */
  method Until(r: Reader, t: string) returns (res: Result<Found, Error>)
    requires Valid(r)
    ensures t == [] <==> res == Failure(EmptyTerminator)
    ensures res.Success? ==> FoundUntil(r, EncodeStr(t), res.value)
    ensures res.Failure? && t != [] ==> Explains(res.error, Unvalidated(r))
  {
    if t == [] {
      return Failure(EmptyTerminator);
    }
    var tb := EncodeStr(t);
    assert |tb| > 0;
    var s := r.src.stream;
    var cur := r;
    while true
      invariant Searching(r, cur, tb)
      decreases |s| - Consumed(cur)
    {
      var sk := SeekByte(cur, tb[0]);
      if sk.Failure? {
        ExplainsEarlier(r, cur, sk.error);
        return Failure(sk.error);
      }
      var x := sk.value.reader;
      if !sk.value.ok {
        GiveUpAtEnd(r, cur, x, tb);
        return Success(GiveUp(r, x, tb));
      }
      var pa := PullAtLeast(x, |tb|);
      if pa.Failure? {
        ExplainsEarlier(r, x, pa.error);
        return Failure(pa.error);
      }
      var y := pa.value.reader;
      if !pa.value.ok {
        GiveUpShort(r, cur, x, y, tb);
        return Success(GiveUp(r, y, tb));
      }
      if Content(y)[..|tb|] == tb {
        return Success(Terminated(r, cur, x, y, tb));
      }
      SearchOn(r, cur, x, y, tb);
      cur := Advance(y, 1);
    }
  }

  /** The span `until` finds is determined by the reference search: it ends at the first occurrence, if any. */
  lemma SpanIsFind(s: Bytes, start: nat, tb: Bytes, span: Span)
    requires start <= |s| && |tb| > 0 && SpanUntil(s, start, tb, span)
    ensures Find(s, start, tb) == if span.Accepted? then Some(start + |span.text|) else None
  {
    if span.Accepted? {
      FindFirst(s, start, tb, start + |span.text|);
    } else {
      FindNone(s, start, tb);
    }
  }
}
