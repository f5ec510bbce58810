/**
 * The blocking byte source behind a reader: one operation, "read at most
 * `room` bytes", where an empty result means the source is exhausted.
 */
module ByteSource {
  import opened Utf8

  /**
   * A source is the whole byte stream it will ever deliver, how much of it has
   * been delivered, and the most bytes each successive read delivers (a 0 entry
   * or a missing one means no limit), so that any chunking can be expressed.
   */
  datatype Source = Source(stream: Bytes, pos: nat, chunks: seq<nat>)

  function Min3(a: nat, b: nat, c: nat): nat {
    if a <= b && a <= c then a else if b <= c then b else c
  }

  /** `Read::read` into a buffer with room for `room` bytes. */
  function Read(s: Source, room: nat): (res: (Bytes, Source))
    requires s.pos <= |s.stream|
    ensures res.1.stream == s.stream && res.1.pos == s.pos + |res.0| <= |s.stream|
    ensures res.0 == s.stream[s.pos..res.1.pos]
    ensures |res.0| <= room
    ensures |res.0| == 0 <==> room == 0 || s.pos == |s.stream|
  {
    var avail := |s.stream| - s.pos;
    var limit := if |s.chunks| > 0 && s.chunks[0] > 0 then s.chunks[0] else avail;
    var n := Min3(room, avail, limit);
    (s.stream[s.pos..s.pos + n], Source(s.stream, s.pos + n, if |s.chunks| > 0 then s.chunks[1..] else []))
  }
}
