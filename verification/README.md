# kalavor core in Dafny

A model of three pieces of the kalavor crate, with proofs about them:

- **`Utf8Reader`** (`src/parser.rs`): a buffered reader that turns a byte
  source into a growing window of validated UTF-8 text. It keeps one buffer
  and the offsets `off_consumed <= off_valid <= off_raw <= buf_cap`, plus the
  running totals `tot_consumed` and `tot_read`, an `eof` flag and a one-slot
  `peeked` length. On top of it sit the scanners `take_once`, `take_times`,
  `take_while`, `matches` and `until`.
- **The character classifiers** (`src/parser/predicates.rs`): `Any`,
  `Newline`, `Whitespace`, `OneOf`, `NoneOf`, `RangeOf` and the `any!` /
  `not!` combinators.
- **The two timestamp encoders**: `format::<MICRO>` with `of` and
  `precise_of` (`src/time.rs`), and `Katetime::generate`
  (`src/datetime.rs`).

Files and modules:

| file | module | what it holds |
|---|---|---|
| wrappers.dfy | `Wrappers` | `Option` and `Result` |
| utf8.dfy | `Utf8` | the UTF8-octets grammar of section 4 of RFC 3629, decoding and encoding, and the validator `Validate` |
| source.dfy | `ByteSource` | the byte source: a whole stream, a read position and a chunk schedule |
| reader.dfy | `Utf8Reader` | the reader state, its invariants, and `content`, `consume`, `pull`, `pull_more`, `pull_at_least`, `fetch`, `validate`, `next`, `peek`, `peeking`, `take_once`, `matches` |
| ranges.dfy | `Ranges` | `RangeBounds` over integers |
| scanning.dfy | `Scanning` | `take_while`, `take_times` and `until`, as methods with loops |
| scan_example.dfy | `ScanExample` | the source's `scan` scenario, step by step |
| predicates.dfy | `Predicates` | the classifiers and the combinators |
| calendar.dfy | `Calendar` | broken-down date and time fields |
| decimal.dfy | `Decimal` | decimal digits and two-digit fields |
| time.dfy | `Time` | `format`, `of`, `precise_of`, and a reader of stamps |
| datetime.dfy | `Datetime` | `Katetime::generate` |

How the reader is modelled:

- The reader is an immutable datatype.
- Each operation is a function or a method that returns the next reader, or
  an `Error`, inside a `Result`.
- The reader reads from one `R: Read` source. The model's source is the
  whole stream it will ever deliver, plus how much of it was read. A list of chunk sizes expresses how reads split it.
- The buffer is the bytes `[0, off_raw)` of the source's buffer. The
  uninitialised rest of the allocation carries no information.
- Two invariants hold throughout:
  - `Sound`: the counters are ordered and account for each other; the buffer
    is the stream slice `[tot_consumed, tot_read)`; the text up to `off_valid`
    is valid; the bytes after it are at most one truncated character; and
    after the end of the source, nothing is left to read or validate.
  - `Valid`: `Sound`, and the cursor is on a character boundary.
- Every I/O error is tied to the stream by `Explains`:
  - `InvalidData` means an illegal byte ahead;
  - `UnexpectedEof` means the stream ends inside a character.
- The two panics of the source are modelled as error values:
  - `NotCharBoundary` for `consume` off a character boundary;
  - `EmptyTerminator` for `until("")`.

## Model

| member | source | states |
|---|---|---|
| Utf8.Validate | src/parser.rs:170-180 | The validator's verdict:<br>• `Complete` exactly when the bytes are valid text.<br>• `Incomplete(k)`: a valid prefix of length `k`, then a legal but truncated character (`error_len() == None`).<br>• `Invalid(k)`: a valid prefix of length `k`, then an illegal byte. |
| Utf8.ValidateIncompleteExact | src/parser.rs:170-180 | Converse of `Validate`: a valid prefix followed by a truncated character always yields `Incomplete` at that length. |
| Utf8.ValidateInvalidExact | src/parser.rs:170-180 | Converse of `Validate`: a valid prefix followed by an illegal byte always yields `Invalid` at that length. |
| Utf8.ValidateAfterValid | src/parser.rs:170-183 | Validating after some valid text gives the verdict on the rest, shifted by the text's length. So `off_valid` can move step by step. |
| Utf8.ValidateInvalidStays | src/parser.rs:173-178 | Once an illegal byte is seen, more input never changes the verdict, so an `InvalidData` error stays justified. |
| Utf8.BoundaryIsValidPrefix | src/parser.rs:63-67 | `is_char_boundary(n)` on valid text holds exactly when the first `n` bytes are valid text. |
| Utf8.BoundaryEnds | src/parser.rs:65 | `str::is_char_boundary` holds at 0 and at the length, and never past the end. |
| Utf8.EncodeChar | src/parser.rs:197-199 | A character's encoding is one well-formed UTF8-char of `len_utf8` bytes. |
| Utf8.LenUtf8Width | src/parser.rs:198 | `char::len_utf8` is 1 to 4, and 1 exactly for ASCII. It equals the width announced by the lead byte of the character's encoding. |
| Utf8.DecodeEncodeChar | src/parser.rs:197-199 | Decoding a character's encoding gives the character back. |
| Utf8.EncodeDecodeChar | src/parser.rs:197-199 | Encoding a decoded UTF8-char gives the same bytes back. |
| Utf8.FirstChar | src/parser.rs:197 | `chars().next()` on valid text: `None` exactly on empty text. Otherwise its encoding starts the text, and the rest is valid text. |
| Utf8.DecodeEncodeStr | src/parser.rs:56 | `as_bytes` then `from_utf8_unchecked` gives the string back. |
| Utf8.EncodeDecodeStr | src/parser.rs:56 | `from_utf8_unchecked` then `as_bytes` gives the bytes back. |
| Utf8.EncodeStr | src/parser.rs:334 | `str::as_bytes` always gives valid UTF-8. |
| Utf8.DecodeConcat | src/parser.rs:323 | Joining two valid texts gives valid text, and its characters are the characters of each part in turn. |
| Utf8.AsciiText | src/time.rs:82 | ASCII bytes are valid UTF-8, and decode to the characters with the same codes. |
| ByteSource.Read | src/parser.rs:147 | One read delivers the next bytes of the stream, at most as many as there is room for. It delivers none exactly when there is no room or the stream is drained. |
| Utf8Reader.New | src/parser.rs:34-51 | A new reader: `Valid`, cursor at 0, no content, not exhausted, capacity `INIT_CAP`. |
| Utf8Reader.Content | src/parser.rs:55-57 | `content()` is the stream between `consumed()` and the end of the validated text. It is valid text whenever the cursor is on a boundary. |
| Utf8Reader.ConsumedPosition | src/parser.rs:73-75 | `consumed()` counts the stream bytes before the cursor: the bytes dropped by earlier compactions, then the buffer bytes before `off_consumed`. It never passes the validated end, which never passes what was read. |
| Utf8Reader.Exhausted | src/parser.rs:78-80 | For a sound reader, `exhausted()` holds exactly when the source ended and every byte of the stream was consumed. |
| Utf8Reader.PendingBound | src/parser.rs:170-184 | At most three unvalidated bytes wait between `off_valid` and `off_raw`. |
| Utf8Reader.ExplainsEarlier | src/parser.rs:149-183 | An error that the stream explains after more text was validated is also explained from the earlier validated end. So an error reported by a later call stays justified for the reader that made it. |
| Utf8Reader.Consume | src/parser.rs:64-70 | `consume(n)` succeeds exactly when `n <= len(content)` and `n` is on a character boundary; otherwise it is the panic. On success, `consumed()` grows by `n` and the content loses exactly its first `n` bytes. |
| Utf8Reader.Advance | src/parser.rs:69 | Moving the cursor `n` bytes into the content: `consumed()` grows by `n`, the skipped bytes are the content's first `n`, the content loses them, and nothing else changes. |
| Utf8Reader.StepOver | src/parser.rs:197-199 | Stepping over the next character: the cursor moves by its `len_utf8`, the bytes passed are its encoding, and the reader stays `Valid`. |
| Utf8Reader.Compact | src/parser.rs:90-104 | Compaction moves `off_consumed` to 0 and leaves `consumed()`, the content, the validated end, the source and the capacity unchanged. |
| Utf8Reader.Reset | src/parser.rs:88-111 | The part of `pull` before reading:<br>• it keeps the content, the unvalidated bytes and the source, and sets the capacity to `INIT_CAP`;<br>• it compacts when `off_raw + THRES_SHRINK > INIT_CAP`;<br>• it leaves room to read whenever the content is well below `INIT_CAP`. |
| Utf8Reader.Pull | src/parser.rs:87-114 | `pull`:<br>• keeps the reader `Sound`, the stream and `consumed()`; validated text and `eof` only grow;<br>• with over `INIT_CAP` bytes buffered it does nothing;<br>• otherwise it leaves the capacity at `INIT_CAP`, and with room it validates more or reaches the end;<br>• every error is explained by the stream. |
| Utf8Reader.PullMore | src/parser.rs:119-127 | `pull_more`:<br>• never compacts, so `off_consumed` and `tot_consumed` stay and the old content is a prefix of the new;<br>• never shrinks the capacity;<br>• validates more text or reaches the end;<br>• every error is explained by the stream. |
| Utf8Reader.Extend | src/parser.rs:120-124 | `pull_more` adds `GROW_CAP` to the capacity when fewer than `THRES_EXTEND` bytes are free, and leaves it unchanged otherwise. Afterwards there is room to read. |
| Utf8Reader.Fetch | src/parser.rs:146-168 | `fetch`:<br>• it is only called with room in the buffer (`off_raw < buf_cap`);<br>• it re-runs its pull until validation gains bytes or the source ends;<br>• the unbounded mode keeps the buffer pinned;<br>• the bounded mode keeps the capacity;<br>• errors are explained by the stream. |
| Utf8Reader.FetchOnce | src/parser.rs:147-158 | One read, then validation. Either the validated text grows, or it stays where it was and the source has moved on. The buffer stays pinned. |
| Utf8Reader.Append | src/parser.rs:147-153 | Bytes read land after `off_raw`. `tot_read` and `off_raw` grow by their number, the old buffer is a prefix of the new one, and the accounting still holds. |
| Utf8Reader.ValidatePending | src/parser.rs:170-184 | `validate`:<br>• it fails (`InvalidData`) exactly when the pending bytes hold an illegal byte;<br>• otherwise it moves `off_valid` over whole valid characters, leaving either nothing or a truncated character. |
| Utf8Reader.EofLeavesTruncated | src/parser.rs:159-166 | At the end of the source with `off_valid != off_raw`, the leftover bytes are a truncated character, which is what `UnexpectedEof` reports. |
| Utf8Reader.PullAtLeast | src/parser.rs:134-144 | `pull_at_least(n)` keeps the buffer pinned and the cursor still. It returns true exactly when the content then has at least `n` bytes, and false only after the end of the source. |
| Utf8Reader.Peek | src/parser.rs:205-211 | `peek` returns the character at the cursor, and `None` only when the reader is exhausted. `consumed()` does not change, and a non-empty content is not pulled. |
| Utf8Reader.PeekIdempotent | src/parser.rs:205-211 | Peeking again returns the same character at the same `consumed()`. |
| Utf8Reader.Next | src/parser.rs:192-200 | `next` returns `None` only when exhausted, with the cursor still. Otherwise it moves `consumed()` by the character's `len_utf8`, over exactly its encoding. |
| Utf8Reader.TakePeeked | src/parser.rs:223-225 | Taking the look-ahead slot moves the cursor over the peeked character, on a boundary, without compacting. |
| Utf8Reader.LookAhead | src/parser.rs:227-233 | With an empty slot, `peeking` pulls without compaction when needed. It records the next character's length in the slot, and returns `None` only when exhausted. |
| Utf8Reader.Peeking | src/parser.rs:222-234 | `peeking`:<br>• the character peeked earlier is consumed, and the next one is peeked;<br>• the slot holds that character's length;<br>• the buffer is not compacted, and `None` means exhausted;<br>• errors are explained by the stream. |
| Utf8Reader.Refill | src/parser.rs:193-195 | The pull before `next`, `peek` and `peeking` runs only when the content is empty. Afterwards an empty content means the reader is exhausted. |
| Utf8Reader.Record | src/parser.rs:231-233 | The slot records the `len_utf8` of the character peeked. |
| Utf8Reader.TakeOnce | src/parser.rs:241-255 | All or nothing:<br>• a character `p` accepts is consumed, exactly its encoding;<br>• otherwise nothing is consumed, and the reader is exhausted or its next character is rejected by `p`. |
| Utf8Reader.Matches | src/parser.rs:333-347 | For one pattern `s: &str`, `matches(s)` is true exactly when the stream continues with `s`'s bytes. It then consumes exactly those bytes, and consumes nothing otherwise. |
| Utf8Reader.PrefixDecision | src/parser.rs:334-340 | Comparing the first `len(s)` content bytes decides whether the stream continues with `s`. Too little content at the end of the source means it does not. |
| Scanning.TakeWhile | src/parser.rs:305-326 | `take_while(p)`:<br>• the span is valid text from the cursor, every character accepted by `p`, and it is consumed;<br>• the character after it is rejected by `p` and peeked but not consumed;<br>• `None` means exhausted;<br>• the span is the buffer slice from the scan's start. |
| Scanning.MaximalRunUnique | src/parser.rs:312-320 | At most one longest run of `p`-characters starts at a position. |
| Scanning.TakeWhileUnique | src/parser.rs:305-326 | Any two results `take_while`'s contract allows have the same span and the same next character. |
| Scanning.TakeTimes | src/parser.rs:264-298 | `take_times(p, range)`:<br>• the loop may take one character past the end bound;<br>• an accepted span has its count in the range, is consumed and is a longest run;<br>• a rejected span has its count outside the range, and the cursor is back at the start;<br>• either way the stopping character is reported. |
| Scanning.CountStep | src/parser.rs:273-286 | One turn of `take_times`' loop: an accepted character below the end bound extends the counted run by one and moves the cursor forward. |
| Scanning.TakeTimesUnbounded | src/parser.rs:276-295 | With no end bound, `take_times` finds exactly `take_while`'s span and next character. It accepts exactly when the count meets the start bound. |
| Scanning.Settle | src/parser.rs:288-297 | The span and the cursor after the loop: kept when `range.contains(times)`, given back otherwise. |
| Scanning.Restore | src/parser.rs:295 | Giving the span back puts the cursor at the scan's start, a character boundary. |
| Ranges.PastEndStaysOut | src/parser.rs:276-280 | Once a count is past the end bound, the range contains no larger count. |
| Ranges.RangeSyntax | src/parser.rs:290 | `RangeBounds::contains` for `a..b`, `a..=b`, `a..`, `..b`, `..=b` and `..` holds exactly for the integers the expression denotes. |
| Scanning.Position | src/parser.rs:367 | `position(\|b\| *b == indicator)`: the first index of the byte, or none when it does not occur. |
| Scanning.SeekByte | src/parser.rs:365-380 | The inner loop of `until`:<br>• it stops on the first byte equal to the terminator's first byte, or at the end of the source when there is none;<br>• it skips no such byte;<br>• it never compacts. |
| Scanning.SearchOn | src/parser.rs:386-399 | On a mismatch the cursor steps one byte. The terminator still occurs nowhere between the scan's start and the cursor. |
| Scanning.OccurrenceOnBoundary | src/parser.rs:386-392 | A terminator that is valid text and starts inside validated text starts on a character boundary. So the span before it is valid text. |
| Scanning.Terminated | src/parser.rs:386-396 | Terminator found: the span is the text from the start up to its first occurrence, and span and terminator are consumed. |
| Scanning.GiveUp | src/parser.rs:402-406 | No occurrence before the end of the source: the span is all the remaining text, and the cursor is back at the start. |
| Scanning.Until | src/parser.rs:360-407 | `until(t)` for one terminator `t: &str`:<br>• `t == ""` is the panic;<br>• on `Ok(span)`, `span` followed by `t` continues the stream at the cursor, `t` occurs nowhere earlier, and both are consumed;<br>• on `Err(span)`, the source has ended, `span` is the rest of the stream with no `t` in it, and the cursor is unchanged;<br>• errors are explained by the stream. |
| Scanning.SpanIsFind | src/parser.rs:360-407 | `until`'s span agrees with an independent leftmost search `Find`: accepted exactly at the first occurrence, rejected exactly when there is none. |
| ScanExample.FirstScan | src/parser.rs:415-421 | On `" >< Foo >< Bar >< Baz >< "`, `take_while(separator)` gives `(" >< ", Some('F'))`. |
| ScanExample.WordScan | src/parser.rs:422 | Then `take_while(alphabetic)` gives `("Foo", Some(' '))`. |
| ScanExample.NotSeparatorScan | src/parser.rs:424 | Then `take_while(not!(separator))` gives `("", Some(' '))` and consumes nothing. |
| ScanExample.MissingUntil | src/parser.rs:426 | Then `until("<>")` gives `Err(" >< Bar >< Baz >< ")` and leaves the cursor where it was. |
| ScanExample.FoundBar | src/parser.rs:427 | Then `until("Bar")` gives `Ok(" >< ")`. |
| Predicates.Any | src/parser/predicates.rs:56-59 | Accepts every character. |
| Predicates.Newline | src/parser/predicates.rs:61-63 | Accepts exactly U+000A. |
| Predicates.Whitespace | src/parser/predicates.rs:65-67 | Accepts exactly tab, line feed, vertical tab, form feed, carriage return and space. |
| Predicates.StrContains | src/parser/predicates.rs:40 | `str::contains(char)` holds exactly when the character occurs at some index. |
| Predicates.OneOf | src/parser/predicates.rs:39-41 | Accepts exactly the characters of the string. |
| Predicates.NoneOf | src/parser/predicates.rs:43-45 | Accepts exactly the characters not in the string. |
| Predicates.NoneOfComplementsOneOf | src/parser/predicates.rs:39-45 | `NoneOf(s)` is the exact complement of `OneOf(s)`. |
| Predicates.RangeOf | src/parser/predicates.rs:47-52 | Accepts exactly the characters whose code point the range contains. |
| Predicates.Disjunction | src/parser/predicates.rs:28-34 | The recursive `any!` expansion holds exactly when some predicate of the list accepts. |
| Predicates.AnyOf | src/parser/predicates.rs:22-35 | `any!` accepts a character exactly when some listed predicate accepts it. |
| Predicates.NegatedDisjunction | src/parser/predicates.rs:12-18 | The recursive `not!` expansion holds exactly when some predicate of the list rejects. |
| Predicates.NotOf | src/parser/predicates.rs:7-19 | `not!` as written accepts a character exactly when some listed predicate rejects it. |
| Predicates.NotOfSingle | src/parser/predicates.rs:16-18 | With one predicate, `not!` is its exact negation. |
| Predicates.Except | src/parser/predicates.rs:5 | "Any character except these": accepts exactly when no listed predicate accepts. |
| Predicates.ExceptComplementsAnyOf | src/parser/predicates.rs:5-35 | For every non-empty list and every character, `Except` accepts the character exactly when `any!` over the same list rejects it. |
| Predicates.WhitespaceIsOneOf | src/parser/predicates.rs:65-67 | `Whitespace` is `OneOf` of its six characters. |
| Predicates.NotOfIsNotExcept | src/parser/predicates.rs:5-19 | `not!(Newline, Whitespace)` accepts the space although `Whitespace` accepts it, while "except these" rejects it. |
| Decimal.DigitByte | src/time.rs:49-67 | `b'0' + n` for a digit `n` is a digit byte whose value is `n`. |
| Decimal.DigitChar | src/datetime.rs:57-61 | A digit character whose value is `n`, and the character of `b'0' + n`. |
| Decimal.Two | src/datetime.rs:64-81 | A two-digit zero-padded field: two digits that read back as the value. |
| Time.YearOffset | src/time.rs:37 | `(year - 2022).rem_euclid(200)`: below 200, and congruent to `year - 2022` modulo 200. |
| Time.YearLetter | src/time.rs:36-48 | The letter is in `A..T` for years above 0 and in `a..t` otherwise. |
| Time.Format | src/time.rs:28-83 | The stamp:<br>• 16 bytes, or 21 with `MICRO`;<br>• every byte is ASCII;<br>• bytes 6 and 11 are `-`, and byte 16 is `.` with `MICRO`. |
| Time.ParseFormat | src/time.rs:36-80 | Reading a stamp back gives its fields:<br>• the sign of the year and `yy`;<br>• month, day, hour, minute, second and `millisecond / 10`;<br>• with `MICRO`, `microsecond % 10000`. |
| Time.SameStamp | src/time.rs:36-80 | Two datetimes get the same stamp exactly when those fields agree. |
| Time.ParseOnlyStamps | src/time.rs:28-83 | Every byte string the reader accepts is the stamp of some in-range datetime. |
| Time.ParseInjective | src/time.rs:28-83 | The reader accepts at most one byte string per stamp. |
| Time.Periodic | src/time.rs:36-49 | Moving a datetime by whole periods of 200 years, without changing the sign of the year, keeps the stamp. |
| Time.ShiftOffset | src/time.rs:37 | `yy` repeats every 200 years. |
| Time.SignShows | src/time.rs:36-48 | A year 0 or below, and the year 200 later that is above 0, have the same `yy` but different stamps. |
| Time.PreciseExtends | src/time.rs:69-80 | The precise stamp is the plain stamp followed by five more bytes. |
| Time.PreciseFraction | src/time.rs:46-80 | The hundredths and the four extra digits together are exactly the microseconds past the second. |
| Time.Of | src/time.rs:20-22 | `of` is the 16-byte stamp as text, one character per byte. |
| Time.PreciseOf | src/time.rs:23-25 | `precise_of` is the 21-byte stamp as text, one character per byte. |
| Time.OfText | src/time.rs:48-67 | The text of `of` is the year letter followed by the rest of the stamp. |
| Time.PreciseOfExample | src/time.rs:85-99 | 2025-01-28 23:04:00.001123 gives `"A30128-2304-0000.1123"`. |
| Datetime.YearCode | src/datetime.rs:53-62 | The year code:<br>• two characters;<br>• the letter is `((year - 2022) mod 200) / 10` places after `A` from 2022 on, and after `a` before 2022;<br>• the digit is `(year - 2022) mod 10`. |
| Datetime.Radix36Reads | src/datetime.rs:57-61 | A `radix_36` digit reads back as its value in base 36, and a letter digit is upper case exactly in the `{:#}` form. |
| Datetime.Generate | src/datetime.rs:45-86 | `generate` is empty exactly when neither part is shown. Otherwise its length is fixed by the layout: date 6 or 8, a separator only with both parts, time 9 or 8. |
| Datetime.Separated | src/datetime.rs:67-72 | With both parts shown, the text is the date alone, then `-` or a space, then the time alone. |
| Datetime.PartsOfBoth | src/datetime.rs:63-83 | With both parts shown, the separator sits after the date's 6 or 8 characters. The date alone is the text before it, and the time alone is the text after it. |
| Datetime.Periodic | src/datetime.rs:53-62 | Moving by whole periods of 200 years keeps the text, as long as the year stays on the same side of 2022. |
| Datetime.UrlSafeText | src/datetime.rs:53-79 | The URL-safe date and time is the year letter followed by the rest of the `of` stamp. |
| Datetime.UrlSafeParts | src/datetime.rs:53-79 | The URL-safe date alone is the year letter and the first five characters after the letter of the `of` stamp. The time alone is the `of` stamp's text after its first `-`. |
| Datetime.UrlSafeMatchesOf | src/datetime.rs:53-79 | The URL-safe date and time agrees with `time::of` after the first character. It is the same text exactly outside the years 1 to 2021, where the two files choose the letter's case differently. |
| Datetime.HumanFields | src/datetime.rs:63-81 | The human layout `YY~MM/DD HH:MM:SS`:<br>• 17 characters, starting with the year code;<br>• `~`, `/`, space and `:` in their places;<br>• each two-digit field reads back as month, day, hour, minute and second. |
| Datetime.ExampleLayouts | src/datetime.rs:100-153 | In any year, 11-23 04:56:07.890 gives the year code followed by `1123-0456-0789`, or by `~11/23 04:56:07`. |
| Datetime.EarlyCodes | src/datetime.rs:121-124 | 1970, 2000, 2010 and 2021 give `o8`, `r8`, `s8` and `t9`. |
| Datetime.LateCodes | src/datetime.rs:125-128 | 2022, 2033, 2221 and 2222 give `A0`, `B1`, `T9` and `A0`. |
| Datetime.EarlyExamples | src/datetime.rs:121-124 | The four URL-safe and four human vectors before 2022. |
| Datetime.LateExamples | src/datetime.rs:125-153 | The four URL-safe and four human vectors from 2022 on. |

## Left out

- The I/O errors of the source itself, and the reader's state after any error. The model returns the error only; the source leaves its offsets partly updated.
- `unsafe` memory handling: `ptr::copy`, the uninitialised `set_len`, and `get_unchecked`. The buffer is a sequence, and compaction is slicing.
- simdutf8: `Utf8.Validate` is the result its `from_utf8` and `error_len` are documented to give, stated over the grammar of section 4 of RFC 3629.
- The text of error messages, including the position in the `InvalidData` message.
- `unc::XidStart` and `unc::XidContinue`: they are Unicode tables from another crate.
- `alphabetic`: `char::is_alphabetic` is a Unicode table. `ScanExample.WordScan` holds for every classifier that accepts `F` and `o` and rejects the space.
- The `Predicate` trait: a predicate is a `char -> bool` function. Macro expansion is modelled as functions over a non-empty list.
- Clock reads: `now`, `now_precise`, `generate_now` and the `now_*` constructors.
- Time zones:
  - the UTC+8 conversion `to_offset` and chrono's `Local` handling are not modelled;
  - both encoders take the already converted fields.
- `Calendar.InRange` does not tie the day to the month's length. Both encoders only print the day, so nothing depends on it.
- Leap seconds: chrono can carry a nanosecond count of 1e9 or more in a leap second. `Calendar.InRange` excludes it, so `Datetime.Generate` does not cover the three-digit hundredths `{:02}` would then print.
- radix_fmt and chrono's `format` beyond what the encoders use:
  - radix 36 is modelled for the values 10 to 29;
  - `%m`, `%d`, `%H`, `%M` and `%S` are two-digit zero-padded fields.
- Utf8Reader.PullMore: its contract says only that the capacity never shrinks. The exact `GROW_CAP` step is stated on `Utf8Reader.Extend`, which it calls.
- Utf8Reader.Pull: its progress guarantee needs the content to be well below `INIT_CAP`. A nearly full buffer may return without reading, as the code does.
- Scanning.Until: the intermediate cursor may sit inside a character while the search steps byte by byte. So the loop keeps only `Sound`, and `Valid` is restored at the end.

## Findings

| source | as written | input that shows it | evidently intended | confidence | as-written member | corrected member |
|---|---|---|---|---|---|---|
| src/parser/predicates.rs:5-19 | `not!(p1, ..., pn)` expands to `!p1(ch) or ... or !pn(ch)`: it accepts a character that some predicate rejects | `not!(Newline, Whitespace)` on `' '`: `Newline` rejects the space, so the closure accepts it, although `Whitespace` accepts it | the doc comment's "any character except these": `!p1(ch) and ... and !pn(ch)` | not executed; high for two or more predicates, and with one predicate both agree | Predicates.NotOfIsNotExcept | Predicates.Except |
