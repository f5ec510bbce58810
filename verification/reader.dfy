/**
 * `Utf8Reader`: a buffered reader that turns a byte source into a growing
 * window of validated UTF-8 text.
 *
 * The buffer holds the bytes read so far since the last compaction. Three
 * offsets divide it: `[0, offConsumed)` was handed out, `[offConsumed,
 * offValid)` is the content (valid text not yet consumed), and `[offValid,
 * offRaw)` is a character cut short by the last read. `bufCap` is the logical
 * capacity a read may fill. `totConsumed` counts the bytes dropped by
 * compaction and `totRead` the bytes read in all.
 *
 * The model keeps the buffer as exactly the bytes `[0, offRaw)`; the rest of
 * the allocation holds no information.
 */
module Utf8Reader {
  import opened Wrappers
  import opened Utf8
  import opened ByteSource

  const INIT_CAP: nat := 16 * 1024
  const GROW_CAP: nat := 16 * 1024
  const THRES_SHRINK: nat := 2 * 1024
  const THRES_EXTEND: nat := 4 * 1024

  /** The most bytes a truncated character can have. */
  const MAX_PENDING: nat := 3

  /**
   * `InvalidData` and `UnexpectedEof` are the I/O errors the reader returns;
   * the other two stand for its panics.
   */
  datatype Error = InvalidData | UnexpectedEof | NotCharBoundary | EmptyTerminator

  /** Which pull `fetch` re-runs when a read completed no character. */
  datatype Mode = Bounded | Unbounded

  datatype Reader = Reader(
    src: Source,
    buf: Bytes,
    bufCap: nat,
    totRead: nat,
    totConsumed: nat,
    offConsumed: nat,
    offValid: nat,
    offRaw: nat,
    peeked: Option<nat>,
    eof: bool)

  /** A character and the reader after looking at it. */
  datatype Peeked = Peeked(reader: Reader, ch: Option<char>)

  /** A yes/no answer and the reader after computing it. */
  datatype Checked = Checked(reader: Reader, ok: bool)

  //------------------------------------------------------------------------------
  // Positions and invariants

  /** `consumed()`: the stream position of the cursor, stable across compaction. */
  function Consumed(r: Reader): nat {
    r.totConsumed + r.offConsumed
  }

  /**
   * `consumed()` counts the stream bytes before the cursor: those dropped by
   * earlier compactions, then the buffer's bytes before `off_consumed`. It
   * never passes the validated end, which never passes what was read.
   */
  lemma ConsumedPosition(r: Reader)
    requires Accounted(r)
    ensures Consumed(r) <= ValidEnd(r) <= r.src.pos
    ensures r.src.stream[..Consumed(r)] == r.src.stream[..r.totConsumed] + r.buf[..r.offConsumed]
  {
    var s := r.src.stream;
    assert r.buf[..r.offConsumed] == s[r.totConsumed..Consumed(r)];
    assert s[..Consumed(r)] == s[..r.totConsumed] + s[r.totConsumed..Consumed(r)];
  }

  /** Stream position of the end of the validated text. */
  function ValidEnd(r: Reader): nat {
    r.totConsumed + r.offValid
  }

  /**
   * Offsets are ordered, the counters agree, the buffer is the stretch of the
   * stream between the compacted prefix and the read position, and everything
   * validated so far is valid text.
   */
  predicate Accounted(r: Reader) {
    && r.offConsumed <= r.offValid <= r.offRaw <= r.bufCap
    && r.totRead == r.totConsumed + r.offRaw
    && r.src.pos == r.totRead <= |r.src.stream|
    && r.buf == r.src.stream[r.totConsumed..r.totRead]
    && ValidUtf8(r.src.stream[..ValidEnd(r)])
  }

  /**
   * In addition, the unvalidated bytes are at most one truncated character,
   * and once the source reported its end nothing is left to read or validate.
   */
  predicate Sound(r: Reader) {
    && Accounted(r)
    && (r.offValid == r.offRaw || IsPartial(r.buf[r.offValid..]))
    && (r.eof ==> r.src.pos == |r.src.stream| && r.offValid == r.offRaw)
  }

  /** In addition, the cursor is on a character boundary. */
  predicate Valid(r: Reader) {
    Sound(r) && ValidUtf8(r.src.stream[..Consumed(r)])
  }

  /** `content()`: the unconsumed valid text. */
  function Content(r: Reader): (c: Bytes)
    requires Sound(r)
    ensures c == r.src.stream[Consumed(r)..ValidEnd(r)]
    ensures Valid(r) ==> ValidUtf8(c)
  {
    var c := r.buf[r.offConsumed..r.offValid];
    if Valid(r) then ValidSlice(r.src.stream, Consumed(r), ValidEnd(r)); c else c
  }

  /** The stream from the end of the validated text on: what validation has yet to see. */
  function Unvalidated(r: Reader): Bytes
    requires Sound(r)
  {
    r.src.stream[ValidEnd(r)..]
  }

  /** `exhausted()`: the source ended and all its text was consumed. */
  function Exhausted(r: Reader): (b: bool)
    ensures Sound(r) ==> (b <==> r.eof && Consumed(r) == |r.src.stream|)
  {
    r.eof && r.offConsumed == r.offValid
  }

  /** The character at the cursor, if the content has one. */
  function NextChar(r: Reader): Option<char>
    requires Valid(r)
  {
    FirstChar(Content(r))
  }

  /** An I/O error is explained by the stream: an illegal byte, or a character the stream cuts short. */
  predicate Explains(e: Error, rest: Bytes) {
    || (e == InvalidData && Validate(rest).Invalid?)
    || (e == UnexpectedEof && Validate(rest).Incomplete?)
  }

  /** What every pull keeps: the stream and the cursor; and what it may only increase: the validated text and `eof`. */
  predicate Grows(r: Reader, r': Reader) {
    && r'.src.stream == r.src.stream
    && Consumed(r') == Consumed(r)
    && ValidEnd(r) <= ValidEnd(r')
    && (r.eof ==> r'.eof)
  }

  /** The buffer was not compacted: its bytes stay where they were, so offsets taken earlier still address them. */
  predicate Pinned(r: Reader, r': Reader) {
    r'.totConsumed == r.totConsumed && r.buf <= r'.buf
  }

  /** More text was validated, or the source has ended. */
  predicate Progress(r: Reader, r': Reader) {
    ValidEnd(r') > ValidEnd(r) || r'.eof
  }

  lemma PendingBound(r: Reader)
    requires Sound(r)
    ensures r.offRaw - r.offValid <= MAX_PENDING
  {
  }

  /** Validation errors found further on also explain the stream from an earlier point. */
  lemma ExplainsEarlier(r: Reader, r': Reader, e: Error)
    requires Sound(r) && Sound(r') && r'.src.stream == r.src.stream && ValidEnd(r) <= ValidEnd(r')
    requires Explains(e, Unvalidated(r'))
    ensures Explains(e, Unvalidated(r))
  {
    ExplainsFrom(r.src.stream, ValidEnd(r), ValidEnd(r'), e);
  }

  lemma ExplainsFrom(s: Bytes, i: nat, j: nat, e: Error)
    requires i <= j <= |s| && ValidUtf8(s[..i]) && ValidUtf8(s[..j])
    requires Explains(e, s[j..])
    ensures Explains(e, s[i..])
  {
    ValidSlice(s, i, j);
    ExplainsAfterValid(s, i, j, e);
  }

  lemma ExplainsAfterValid(s: Bytes, i: nat, j: nat, e: Error)
    requires i <= j <= |s| && ValidUtf8(s[i..j]) && Explains(e, s[j..])
    ensures Explains(e, s[i..])
  {
    var v, x := s[i..j], s[j..];
    assert s[i..] == v + x;
    ValidateAfterValid(v, x);
  }

  //------------------------------------------------------------------------------
  // Construction and the cursor

  /** `Utf8Reader::new` over a fresh source. */
  function New(stream: Bytes, chunks: seq<nat>): (r: Reader)
    ensures Valid(r) && r.src.stream == stream && Consumed(r) == 0 && Content(r) == []
    ensures !Exhausted(r) && r.bufCap == INIT_CAP
  {
    Reader(Source(stream, 0, chunks), [], INIT_CAP, 0, 0, 0, 0, 0, None, false)
  }

  /**
   * Moves the cursor `n` bytes into the content. The bytes passed over are
   * the first `n` bytes of the content, and the cursor stays on a character
   * boundary when they are whole characters.
   */
  function Advance(r: Reader, n: nat): (r': Reader)
    requires Sound(r) && n <= |Content(r)|
    ensures Sound(r') && r' == r.(offConsumed := r'.offConsumed)
    ensures Consumed(r') == Consumed(r) + n && ValidEnd(r') == ValidEnd(r)
    ensures r.src.stream[Consumed(r)..Consumed(r')] == Content(r)[..n]
    ensures Content(r') == Content(r)[n..]
    ensures Valid(r) && ValidUtf8(Content(r)[..n]) ==> Valid(r')
  {
    var r' := r.(offConsumed := r.offConsumed + n);
    var s := r.src.stream;
    SubSlices(s, Consumed(r), Consumed(r'), ValidEnd(r));
    if Valid(r) && ValidUtf8(Content(r)[..n]) then
      ValidJoin(s, Consumed(r), Consumed(r'));
      r'
    else r'
  }

  /**
   * `consume(n)`: panics unless `n` is a character boundary of the content;
   * otherwise the cursor moves `n` bytes and the content loses its first `n` bytes.
   */
  function Consume(r: Reader, n: nat): (res: Result<Reader, Error>)
    requires Valid(r)
    ensures res.Success? <==> n <= |Content(r)| && ValidUtf8(Content(r)[..n])
    ensures res.Failure? ==> res.error == NotCharBoundary
    ensures res.Success? ==>
      && Valid(res.value) && res.value.src == r.src
      && Consumed(res.value) == Consumed(r) + n
      && Content(res.value) == Content(r)[n..]
  {
    var c := Content(r);
    var ok := if n <= |c| then BoundaryIsValidPrefix(c, n); IsCharBoundary(c, n) else false;
    if !ok then Failure(NotCharBoundary)
    else Success(Advance(r, n))
  }

  /** Moves the cursor over the character at it. */
  function StepOver(r: Reader, c: char): (r': Reader)
    requires Valid(r) && NextChar(r) == Some(c)
    ensures Valid(r') && r'.src == r.src && Consumed(r') == Consumed(r) + LenUtf8(c)
    ensures r.src.stream[Consumed(r)..Consumed(r')] == EncodeChar(c)
  {
    IsCharValid(EncodeChar(c));
    Advance(r, LenUtf8(c))
  }

  //------------------------------------------------------------------------------
  // Pulling bytes from the source

  /**
   * The compaction step of `pull`: the unconsumed bytes move to the start of
   * the buffer and the consumed prefix is added to `totConsumed`.
   */
  function Compact(r: Reader): (r': Reader)
    requires Sound(r)
    ensures Sound(r') && Grows(r, r') && ValidEnd(r') == ValidEnd(r)
    ensures r'.offConsumed == 0 && Content(r') == Content(r)
    ensures r'.offRaw == r.offRaw - r.offConsumed && r'.src == r.src && r'.bufCap == r.bufCap
  {
    var r' := r.(
      buf := r.buf[r.offConsumed..],
      totConsumed := r.totConsumed + r.offConsumed,
      offRaw := r.offRaw - r.offConsumed,
      offValid := r.offValid - r.offConsumed,
      offConsumed := 0);
    assert r'.buf[r'.offValid..] == r.buf[r.offValid..];
    r'
  }

  /**
   * `pull`: reads at most `INIT_CAP` bytes' worth of buffer. It does nothing
   * when more than `INIT_CAP` unconsumed bytes are buffered; otherwise it
   * resets the buffer and reads unless the buffer is already full.
   */
  function Pull(r: Reader): (res: Result<Reader, Error>)
    requires Sound(r)
    ensures res.Success? ==> Sound(res.value) && Grows(r, res.value)
    ensures res.Success? && r.offRaw - r.offConsumed > INIT_CAP ==> res.value == r
    ensures res.Success? && r.offRaw - r.offConsumed <= INIT_CAP ==> res.value.bufCap == INIT_CAP
    ensures res.Success? && |Content(r)| + MAX_PENDING < INIT_CAP ==> Progress(r, res.value)
    ensures res.Failure? ==> Explains(res.error, Unvalidated(r))
    decreases |r.src.stream| - r.src.pos, 1
  {
    if r.offRaw - r.offConsumed > INIT_CAP then Success(r)
    else
      var r1 := Reset(r);
      if r1.offRaw >= INIT_CAP then Success(r1)
      else Fetch(r1, Bounded)
  }

  /**
   * The buffer handling of `pull` once it decided to read: compaction when the
   * read offset is within `THRES_SHRINK` of `INIT_CAP`, then the capacity goes
   * back to `INIT_CAP`. Only text positions matter afterwards, and they are kept.
   */
  function Reset(r: Reader): (r': Reader)
    requires Sound(r) && r.offRaw - r.offConsumed <= INIT_CAP
    ensures Sound(r') && Grows(r, r') && r'.bufCap == INIT_CAP
    ensures r'.src == r.src && r'.eof == r.eof && ValidEnd(r') == ValidEnd(r)
    ensures Content(r') == Content(r) && Unvalidated(r') == Unvalidated(r)
    ensures r.offRaw + THRES_SHRINK > INIT_CAP ==> r'.offConsumed == 0
    ensures |Content(r)| + MAX_PENDING < INIT_CAP ==> r'.offRaw < INIT_CAP
  {
    var r1 := if r.offRaw + THRES_SHRINK > INIT_CAP then Compact(r) else r;
    PendingBound(r);
    Recap(r1, INIT_CAP);
    r1.(bufCap := INIT_CAP)
  }

  /** Setting the capacity, as long as the buffered bytes still fit, changes no text position. */
  lemma Recap(r: Reader, cap: nat)
    requires Sound(r) && r.offRaw <= cap
    ensures var r' := r.(bufCap := cap);
      && Sound(r') && Grows(r, r') && Grows(r', r) && ValidEnd(r') == ValidEnd(r)
      && Content(r') == Content(r) && Unvalidated(r') == Unvalidated(r)
  {
  }

  /**
   * `pull_more`: reads more bytes without compacting, so the content is
   * pinned; when less than `THRES_EXTEND` bytes are free the capacity grows
   * by `GROW_CAP`.
   */
  function PullMore(r: Reader): (res: Result<Reader, Error>)
    requires Sound(r)
    ensures res.Success? ==> Sound(res.value) && Grows(r, res.value) && Progress(r, res.value)
    ensures res.Success? ==> Pinned(r, res.value) && res.value.offConsumed == r.offConsumed
    ensures res.Success? ==> Content(r) <= Content(res.value)
    ensures res.Success? ==> res.value.bufCap >= r.bufCap
    ensures res.Failure? ==> Explains(res.error, Unvalidated(r))
    decreases |r.src.stream| - r.src.pos, 1
  {
    var r1 := Extend(r);
    assert Unvalidated(r1) == Unvalidated(r);
    var res := Fetch(r1, Unbounded);
    if res.Success? then
      SlicePrefix(r.src.stream, Consumed(r), ValidEnd(r), ValidEnd(res.value));
      res
    else res
  }

  /**
   * The growth step of `pull_more`: the capacity grows by the fixed
   * `GROW_CAP` exactly when less than `THRES_EXTEND` bytes are free, so a
   * read always has room afterwards.
   */
  function Extend(r: Reader): (r': Reader)
    requires Sound(r)
    ensures Sound(r') && r' == r.(bufCap := r'.bufCap)
    ensures r'.bufCap == r.bufCap + (if r.bufCap - r.offRaw < THRES_EXTEND then GROW_CAP else 0)
    ensures r'.bufCap - r'.offRaw >= THRES_EXTEND || r.bufCap - r.offRaw < THRES_EXTEND
    ensures r'.offRaw < r'.bufCap
  {
    if r.bufCap - r.offRaw < THRES_EXTEND then r.(bufCap := r.bufCap + GROW_CAP) else r
  }

  lemma SubSlices(s: Bytes, i: nat, j: nat, k: nat)
    requires i <= j <= k <= |s|
    ensures s[i..k][..j - i] == s[i..j] && s[i..k][j - i..] == s[j..k]
  {
  }

  lemma SlicePrefix(s: Bytes, i: nat, j: nat, k: nat)
    requires i <= j <= k <= |s|
    ensures s[i..j] <= s[i..k]
  {
    assert s[i..k][..j - i] == s[i..j];
  }

  /**
   * `fetch`: reads once and validates; when that completed no character and
   * the source has not ended, the pull is run again.
   */
  function Fetch(r: Reader, mode: Mode): (res: Result<Reader, Error>)
    requires Sound(r) && r.offRaw < r.bufCap
    ensures res.Success? ==> Sound(res.value) && Grows(r, res.value)
    ensures res.Success? && (mode == Unbounded || |Content(r)| + MAX_PENDING < INIT_CAP) ==>
      Progress(r, res.value)
    ensures res.Success? && mode == Unbounded ==>
      && Pinned(r, res.value) && res.value.offConsumed == r.offConsumed
      && res.value.bufCap >= r.bufCap
    ensures res.Success? && mode == Bounded && r.bufCap == INIT_CAP ==> res.value.bufCap == INIT_CAP
    ensures res.Failure? ==> Explains(res.error, Unvalidated(r))
    decreases |r.src.stream| - r.src.pos, 0
  {
    var once :- FetchOnce(r);
    var r1 := once.0;
    if once.1 then Success(r1)
    else
      assert Unvalidated(r1) == Unvalidated(r) && |Content(r1)| == |Content(r)|;
      var res := match mode
        case Bounded => Pull(r1)
        case Unbounded => PullMore(r1);
      if res.Success? then Resumed(r, r1, res.value); res else res
  }

  /** A retry after a step that validated nothing counts from the state before the step. */
  lemma Resumed(r: Reader, r1: Reader, r2: Reader)
    requires Grows(r, r1) && ValidEnd(r1) == ValidEnd(r) && Grows(r1, r2)
    ensures Grows(r, r2) && (Progress(r1, r2) ==> Progress(r, r2))
    ensures Pinned(r, r1) && Pinned(r1, r2) ==> Pinned(r, r2)
  {
  }

  /**
   * One read into the free part of the buffer, which is never empty here,
   * followed by validation. An empty read is the end of the stream, an error
   * if a truncated character is left. The flag says whether the step is
   * final: the source ended or some text was validated.
   */
  function FetchOnce(r: Reader): (res: Result<(Reader, bool), Error>)
    requires Sound(r) && r.offRaw < r.bufCap
    ensures res.Success? ==>
      var r' := res.value.0;
      && Sound(r') && Grows(r, r') && Pinned(r, r')
      && r'.offConsumed == r.offConsumed && r'.bufCap == r.bufCap
      && (res.value.1 ==> Progress(r, r'))
      && (!res.value.1 ==> ValidEnd(r') == ValidEnd(r) && r'.src.pos > r.src.pos)
    ensures res.Failure? ==> Explains(res.error, Unvalidated(r))
  {
    var (got, src') := Read(r.src, r.bufCap - r.offRaw);
    if |got| == 0 then
      if r.offValid == r.offRaw then Success((r.(src := src', eof := true), true))
      else
        EofLeavesTruncated(r);
        Failure(UnexpectedEof)
    else
      var r1 := Append(r, got, src');
      match ValidatePending(r1)
      case Failure(e) =>
        InvalidStaysFrom(r.src.stream, ValidEnd(r), r1.totRead);
        Failure(e)
      case Success(v) =>
        Chain(r, r1, v.0);
        Success((v.0, v.1 > 0))
  }

  /** Growing and pinning compose. */
  lemma Chain(a: Reader, b: Reader, c: Reader)
    requires Grows(a, b) && Pinned(a, b) && Grows(b, c) && Pinned(b, c)
    ensures Grows(a, c) && Pinned(a, c)
  {
  }

  /** Reaching the end of the stream with a truncated character pending is an incomplete sequence. */
  lemma EofLeavesTruncated(r: Reader)
    requires Sound(r) && r.src.pos == |r.src.stream| && r.offValid != r.offRaw
    ensures Validate(Unvalidated(r)).Incomplete?
  {
    var u := Unvalidated(r);
    assert u == r.buf[r.offValid..];
    assert u[..0] == [] && u[0..] == u;
    ValidateIncompleteExact(u, 0);
  }

  /** An illegal byte found in a stretch of the stream is found in everything from the stretch's start. */
  lemma InvalidStaysFrom(s: Bytes, i: nat, j: nat)
    requires i <= j <= |s| && Validate(s[i..j]).Invalid?
    ensures Validate(s[i..]).Invalid?
  {
    assert s[i..] == s[i..j] + s[j..];
    ValidateInvalidStays(s[i..j], s[j..]);
  }

  /** Appends the bytes of a read to the buffer. */
  function Append(r: Reader, got: Bytes, src': Source): (r1: Reader)
    requires Sound(r) && 0 < |got| <= r.bufCap - r.offRaw
    requires src'.stream == r.src.stream && src'.pos == r.src.pos + |got| <= |r.src.stream|
    requires got == r.src.stream[r.src.pos..src'.pos]
    ensures Accounted(r1) && !r1.eof && !r.eof
    ensures r1 == r.(src := src', buf := r1.buf, offRaw := r1.offRaw, totRead := r1.totRead, eof := false)
    ensures r1.offRaw == r.offRaw + |got| && r.buf <= r1.buf
    ensures r1.buf[r1.offValid..] == r.src.stream[ValidEnd(r)..r1.totRead]
    ensures Grows(r, r1) && Pinned(r, r1) && ValidEnd(r1) == ValidEnd(r) && r1.src.pos > r.src.pos
  {
    var r1 := r.(src := src', buf := r.buf + got, offRaw := r.offRaw + |got|,
                 totRead := r.totRead + |got|, eof := false);
    Appended(r, got, r1);
    r1
  }

  lemma Appended(r: Reader, got: Bytes, r1: Reader)
    requires Accounted(r) && r1.offRaw == r.offRaw + |got| <= r1.bufCap
    requires r1.src.stream == r.src.stream && r1.src.pos == r.src.pos + |got| <= |r.src.stream|
    requires got == r.src.stream[r.src.pos..r1.src.pos] && r1.buf == r.buf + got
    requires r1.totConsumed == r.totConsumed && r1.totRead == r.totRead + |got|
    requires r1.offConsumed == r.offConsumed && r1.offValid == r.offValid
    ensures Accounted(r1) && r.buf <= r1.buf
    ensures r1.buf[r1.offValid..] == r.src.stream[ValidEnd(r)..r1.totRead]
  {
    var s, a, v, b, c := r.src.stream, r.totConsumed, ValidEnd(r), r.totRead, r1.totRead;
    SliceJoin(s, a, v, b, c);
    assert r1.buf == s[a..c];
    assert ValidEnd(r1) == v;
    assert r1.src.stream[..ValidEnd(r1)] == s[..v];
  }

  /** Adjacent stretches of the stream join, and a join read from an inner offset is the stretch from there. */
  lemma SliceJoin(s: Bytes, a: nat, v: nat, b: nat, c: nat)
    requires a <= v <= b <= c <= |s|
    ensures s[a..b] + s[b..c] == s[a..c]
    ensures (s[a..b] + s[b..c])[v - a..] == s[v..c]
  {
    assert s[a..b] + s[b..c] == s[a..c];
  }

  /**
   * Moving `offValid` over `k` more bytes that are valid text, leaving at most
   * a truncated character behind, keeps the reader sound.
   */
  lemma ExtendValid(r: Reader, k: nat)
    requires Accounted(r) && !r.eof && r.offValid + k <= r.offRaw
    requires ValidUtf8(r.buf[r.offValid..][..k])
    requires r.offValid + k == r.offRaw || IsPartial(r.buf[r.offValid..][k..])
    ensures Sound(r.(offValid := r.offValid + k))
  {
    var r' := r.(offValid := r.offValid + k);
    PendingFacts(r.src.stream, r.buf, r.totConsumed, r.offValid, k);
    AccountedFurther(r, k);
    SoundParts(r');
  }

  /** `Sound` from its three parts. */
  lemma SoundParts(r: Reader)
    requires Accounted(r) && (r.offValid == r.offRaw || IsPartial(r.buf[r.offValid..]))
    requires r.eof ==> r.src.pos == |r.src.stream| && r.offValid == r.offRaw
    ensures Sound(r)
  {
  }

  /** Moving `offValid` over bytes that extend the valid text keeps the accounting. */
  lemma AccountedFurther(r: Reader, k: nat)
    requires Accounted(r) && r.offValid + k <= r.offRaw
    requires ValidUtf8(r.src.stream[..ValidEnd(r) + k])
    ensures Accounted(r.(offValid := r.offValid + k))
  {
  }

  /**
   * The same step on the stream: the buffer is `s[a..]` and its first `o`
   * bytes end the valid prefix; `k` more valid bytes extend that prefix, and
   * what follows them stays a truncated character.
   */
  lemma PendingFacts(s: Bytes, buf: Bytes, a: nat, o: nat, k: nat)
    requires a + |buf| <= |s| && buf == s[a..a + |buf|] && o + k <= |buf|
    requires ValidUtf8(s[..a + o]) && ValidUtf8(buf[o..][..k])
    requires o + k == |buf| || IsPartial(buf[o..][k..])
    ensures ValidUtf8(s[..a + o + k]) && (o + k == |buf| || IsPartial(buf[o + k..]))
  {
    var e := a + |buf|;
    assert buf[o..] == s[a + o..e] && buf[o + k..] == s[a + o + k..e];
    SubSlices(s, a + o, a + o + k, e);
    ValidJoin(s, a + o, a + o + k);
  }

  /**
   * `validate`: runs the UTF-8 checker over `[offValid, offRaw)` and moves
   * `offValid` over the longest prefix of whole valid characters, returning
   * how far it moved; an illegal byte is an `InvalidData` error.
   */
  function ValidatePending(r: Reader): (res: Result<(Reader, nat), Error>)
    requires Accounted(r) && !r.eof
    ensures res.Failure? ==> res.error == InvalidData && Validate(r.buf[r.offValid..]).Invalid?
    ensures res.Success? ==>
      && Sound(res.value.0) && res.value.0 == r.(offValid := r.offValid + res.value.1)
      && Grows(r, res.value.0) && Pinned(r, res.value.0)
      && (res.value.1 == r.offRaw - r.offValid || IsPartial(r.buf[r.offValid..][res.value.1..]))
  {
    var pending := r.buf[r.offValid..];
    var v := Validate(pending);
    if v.Invalid? then Failure(InvalidData)
    else
      var k := if v.Complete? then |pending| else v.validUpTo;
      assert v.Complete? ==> pending[..k] == pending;
      ExtendValid(r, k);
      Success((r.(offValid := r.offValid + k), k))
  }

  /**
   * `pull_at_least(n)`: pulls more until the content has at least `n` bytes
   * (true) or the source has ended short of that (false).
   */
  function PullAtLeast(r: Reader, n: nat): (res: Result<Checked, Error>)
    requires Sound(r)
    ensures res.Success? ==>
      var r' := res.value.reader;
      && Sound(r') && Grows(r, r') && Pinned(r, r') && r'.offConsumed == r.offConsumed
      && (res.value.ok <==> |Content(r')| >= n)
      && (!res.value.ok ==> r'.eof)
    ensures res.Failure? ==> Explains(res.error, Unvalidated(r))
    decreases |r.src.stream| - ValidEnd(r), if r.eof then 0 else 1
  {
    if |Content(r)| >= n then Success(Checked(r, true))
    else if r.eof then Success(Checked(r, false))
    else
      match PullMore(r)
      case Failure(e) => Failure(e)
      case Success(r1) =>
        var res := PullAtLeast(r1, n);
        if res.Failure? then ExplainsEarlier(r, r1, res.error); res else res
  }

  //------------------------------------------------------------------------------
  // One character at a time

  /**
   * `peek()`: the character at the cursor, pulling first if the content is
   * empty; `None` only once the reader is exhausted. The cursor does not move.
   */
  function Peek(r: Reader): (res: Result<Peeked, Error>)
    requires Valid(r)
    ensures res.Success? ==>
      var r' := res.value.reader;
      && Valid(r') && Grows(r, r')
      && res.value.ch == NextChar(r')
      && (res.value.ch.None? ==> Exhausted(r'))
      && (|Content(r)| > 0 ==> r' == r)
    ensures res.Failure? ==> Explains(res.error, Unvalidated(r))
  {
    var r1 :- Refill(r, Bounded);
    Success(Peeked(r1, NextChar(r1)))
  }

  /**
   * `next()`: consumes and returns the character at the cursor, pulling first
   * if the content is empty; `None` only once the reader is exhausted.
   */
  function Next(r: Reader): (res: Result<Peeked, Error>)
    requires Valid(r)
    ensures res.Success? ==>
      var r' := res.value.reader;
      && Valid(r') && r'.src.stream == r.src.stream
      && (res.value.ch.None? ==> Exhausted(r') && Consumed(r') == Consumed(r))
      && (res.value.ch.Some? ==>
            var c := res.value.ch.value;
            Consumed(r') == Consumed(r) + LenUtf8(c)
            && r.src.stream[Consumed(r)..Consumed(r')] == EncodeChar(c))
    ensures res.Failure? ==> Explains(res.error, Unvalidated(r))
  {
    var p :- Peek(r);
    match p.ch
    case None => Success(p)
    case Some(c) =>
      Success(Peeked(StepOver(p.reader, c), Some(c)))
  }

  /** Peeking twice in a row gives the same character and leaves the cursor where it was. */
  lemma PeekIdempotent(r: Reader)
    requires Valid(r) && Peek(r).Success?
    ensures var p := Peek(r).value;
      Peek(p.reader).Success? && Peek(p.reader).value.ch == p.ch
      && Consumed(Peek(p.reader).value.reader) == Consumed(r)
  {
    var p := Peek(r).value;
    if p.ch.None? {
      var r1 := p.reader;
      assert Content(r1) == [];
      var q := Pull(r1);
      assert Unvalidated(r1) == [];
      assert Validate(Unvalidated(r1)) == Complete;
      assert q.Success?;
    }
  }

  /**
   * The look-ahead slot: a peeked length is the length of the character at
   * the cursor.
   */
  predicate PeekSound(r: Reader)
    requires Sound(r)
  {
    r.peeked.Some? ==> 1 <= r.peeked.value <= |Content(r)| && IsChar(Content(r)[..r.peeked.value])
  }

  /**
   * What `peeking()` promises: the previously peeked character was taken, the
   * next one is peeked and recorded in the slot, the buffer was not
   * compacted, and `None` means the reader is exhausted.
   */
  predicate PeekedFrom(r: Reader, q: Peeked)
    requires Valid(r) && PeekSound(r)
  {
    var r' := q.reader;
    && Valid(r') && PeekSound(r') && r'.src.stream == r.src.stream
    && Pinned(r, r') && r'.offConsumed >= r.offConsumed && ValidEnd(r) <= ValidEnd(r')
    && Consumed(r') == Cursor(r)
    && q.ch == NextChar(r')
    && (q.ch.None? ==> Exhausted(r') && Cursor(r') == Consumed(r'))
    && (q.ch.Some? ==> Cursor(r') == Consumed(r') + LenUtf8(q.ch.value))
  }

  /** Where the cursor will be once the peeked character is taken. */
  function Cursor(r: Reader): nat {
    Consumed(r) + (if r.peeked.Some? then r.peeked.value else 0)
  }

  /**
   * `peeking()`: takes the character in the look-ahead slot, if any, then
   * looks at the next one, pulling more without compaction if the content is
   * empty, and puts its length in the slot.
   */
  function Peeking(r: Reader): (res: Result<Peeked, Error>)
    requires Valid(r) && PeekSound(r)
    ensures res.Success? ==> PeekedFrom(r, res.value)
    ensures res.Failure? ==> Explains(res.error, Unvalidated(r))
  {
    LookAhead(TakePeeked(r))
  }

  /** Takes the character in the look-ahead slot, if any, and empties the slot. */
  function TakePeeked(r: Reader): (r': Reader)
    requires Valid(r) && PeekSound(r)
    ensures Valid(r') && r'.peeked.None? && Consumed(r') == Cursor(r)
    ensures Pinned(r, r') && r'.src == r.src && r'.offConsumed >= r.offConsumed
    ensures ValidEnd(r') == ValidEnd(r)
    ensures Unvalidated(r') == Unvalidated(r)
  {
    if r.peeked.None? then r
    else
      TakeStep(r);
      Advance(r, r.peeked.value).(peeked := None)
  }

  lemma TakeStep(r: Reader)
    requires Valid(r) && PeekSound(r) && r.peeked.Some?
    ensures var r' := Advance(r, r.peeked.value).(peeked := None);
      && Valid(r') && Consumed(r') == Cursor(r) && Pinned(r, r') && r'.src == r.src
      && r'.offConsumed >= r.offConsumed && Unvalidated(r') == Unvalidated(r)
      && ValidEnd(r') == ValidEnd(r)
  {
    var len := r.peeked.value;
    IsCharValid(Content(r)[..len]);
    var r1 := Advance(r, len);
    SetPeeked(r1, None);
    var r' := r1.(peeked := None);
    assert r'.src == r.src && ValidEnd(r') == ValidEnd(r);
    assert Unvalidated(r') == r.src.stream[ValidEnd(r)..] == Unvalidated(r);
  }

  /**
   * Looks at the character at the cursor, pulling more without compaction if
   * the content is empty, and records its length in the slot.
   */
  function LookAhead(r: Reader): (res: Result<Peeked, Error>)
    requires Valid(r) && r.peeked.None?
    ensures res.Success? ==>
      var r' := res.value.reader;
      && Valid(r') && PeekSound(r') && Grows(r, r') && Pinned(r, r')
      && r'.offConsumed == r.offConsumed
      && res.value.ch == NextChar(r')
      && (res.value.ch.None? ==> Exhausted(r') && Cursor(r') == Consumed(r'))
      && (res.value.ch.Some? ==> Cursor(r') == Consumed(r') + LenUtf8(res.value.ch.value))
    ensures res.Failure? ==> Explains(res.error, Unvalidated(r))
  {
    var r1 :- Refill(r, Unbounded);
    var ch := NextChar(r1);
    var r2 := Record(r1, ch);
    Chain(r, r1, r2);
    Success(Peeked(r2, ch))
  }

  /**
   * Pulls if the content is empty: `pull` or, without compaction,
   * `pull_more`. Afterwards there is text at the cursor or the reader is
   * exhausted.
   */
  function Refill(r: Reader, mode: Mode): (res: Result<Reader, Error>)
    requires Valid(r)
    ensures res.Success? ==>
      && Valid(res.value) && Grows(r, res.value)
      && (|Content(res.value)| == 0 ==> Exhausted(res.value))
      && (|Content(r)| > 0 ==> res.value == r)
    ensures res.Success? && mode == Unbounded ==>
      Pinned(r, res.value) && res.value.offConsumed == r.offConsumed
    ensures res.Failure? ==> Explains(res.error, Unvalidated(r))
  {
    if |Content(r)| > 0 then Success(r)
    else
      var res := if mode == Bounded then Pull(r) else PullMore(r);
      if res.Success? then Refilled(r, res.value); res else res
  }

  /**
   * Pulling keeps the cursor, so it stays on a character boundary; a pull
   * into empty content that made progress left text or reached the end.
   */
  lemma Refilled(r: Reader, r': Reader)
    requires Valid(r) && Sound(r') && Grows(r, r') && Progress(r, r') && |Content(r)| == 0
    ensures Valid(r') && (|Content(r')| == 0 ==> Exhausted(r'))
  {
  }

  /** Puts the length of the character at the cursor in the look-ahead slot. */
  function Record(r: Reader, ch: Option<char>): (r': Reader)
    requires Valid(r) && ch == NextChar(r)
    ensures r' == r.(peeked := r'.peeked) && Valid(r') && PeekSound(r') && NextChar(r') == ch
    ensures Grows(r, r') && Pinned(r, r') && r'.offConsumed == r.offConsumed
    ensures ch.None? ==> Cursor(r') == Consumed(r') && Exhausted(r') == Exhausted(r)
    ensures ch.Some? ==> Cursor(r') == Consumed(r') + LenUtf8(ch.value)
  {
    var slot := if ch.Some? then Some(LenUtf8(ch.value)) else None;
    SetPeeked(r, slot);
    if ch.Some? then CharAtCursor(r, ch.value); r.(peeked := slot) else r.(peeked := slot)
  }

  /** The look-ahead slot is bookkeeping only: the text and the cursor do not depend on it. */
  lemma SetPeeked(r: Reader, slot: Option<nat>)
    requires Valid(r)
    ensures var r' := r.(peeked := slot);
      Valid(r') && Content(r') == Content(r) && NextChar(r') == NextChar(r)
  {
  }

  lemma CharAtCursor(r: Reader, c: char)
    requires Valid(r) && NextChar(r) == Some(c)
    ensures 1 <= LenUtf8(c) <= |Content(r)| && IsChar(Content(r)[..LenUtf8(c)])
  {
  }

  /**
   * `take_once(p)`: consumes the character at the cursor if `p` accepts it,
   * and nothing otherwise.
   */
  function TakeOnce(r: Reader, p: char -> bool): (res: Result<Peeked, Error>)
    requires Valid(r)
    ensures res.Success? ==>
      var r' := res.value.reader;
      && Valid(r') && r'.src.stream == r.src.stream
      && (res.value.ch.Some? ==>
            var c := res.value.ch.value;
            p(c) && Consumed(r') == Consumed(r) + LenUtf8(c)
            && r.src.stream[Consumed(r)..Consumed(r')] == EncodeChar(c))
      && (res.value.ch.None? ==>
            Consumed(r') == Consumed(r)
            && (Exhausted(r') || (NextChar(r').Some? && !p(NextChar(r').value))))
    ensures res.Failure? ==> Explains(res.error, Unvalidated(r))
  {
    var q :- Peek(r);
    match q.ch
    case None => Success(q)
    case Some(c) =>
      if !p(c) then Success(Peeked(q.reader, None))
      else
        Success(Peeked(StepOver(q.reader, c), Some(c)))
  }

  /**
   * `matches(s)`: consumes `s` if the stream continues with it, and nothing
   * otherwise; pulls until enough bytes are there to decide.
   */
  function Matches(r: Reader, s: string): (res: Result<Checked, Error>)
    requires Valid(r)
    ensures res.Success? ==>
      var r' := res.value.reader;
      && Valid(r') && r'.src.stream == r.src.stream
      && (res.value.ok <==> EncodeStr(s) <= r.src.stream[Consumed(r)..])
      && Consumed(r') == Consumed(r) + (if res.value.ok then |EncodeStr(s)| else 0)
    ensures res.Failure? ==> Explains(res.error, Unvalidated(r))
  {
    var pattern := EncodeStr(s);
    var q :- PullAtLeast(r, |pattern|);
    var r1 := q.reader;
    var c := Content(r1);
    assert Consumed(r1) == Consumed(r) && c == r.src.stream[Consumed(r)..ValidEnd(r1)];
    assert !q.ok ==> ValidEnd(r1) == |r.src.stream|;
    PrefixDecision(r.src.stream, Consumed(r), ValidEnd(r1), pattern);
    if !q.ok then Success(Checked(r1, false))
    else if c[..|pattern|] != pattern then Success(Checked(r1, false))
    else Success(Checked(Advance(r1, |pattern|), true))
  }

  /**
   * Whether `pattern` starts the stream at `i` can be decided from the bytes
   * up to `j`, if there are enough of them or the stream ends at `j`.
   */
  lemma PrefixDecision(s: Bytes, i: nat, j: nat, pattern: Bytes)
    requires i <= j <= |s|
    ensures |pattern| <= j - i ==> (pattern <= s[i..] <==> s[i..j][..|pattern|] == pattern)
    ensures j == |s| && |pattern| > j - i ==> !(pattern <= s[i..])
  {
    if |pattern| <= j - i {
      assert s[i..j][..|pattern|] == s[i..][..|pattern|];
    }
  }
}
