/** Rust's `RangeBounds`: a start bound and an end bound, each included, excluded or absent. */
module Ranges {

  datatype Bound = Included(at: int) | Excluded(at: int) | Unbounded

  datatype Range = Range(start: Bound, end: Bound)

  /** `x` is not below the start bound. */
  predicate AboveStart(b: Bound, x: int) {
    match b
    case Included(a) => a <= x
    case Excluded(a) => a < x
    case Unbounded => true
  }

  /** `x` is not beyond the end bound (`Bound::Included(n) => x <= n`, `Bound::Excluded(n) => x < n`). */
  predicate BelowEnd(b: Bound, x: int) {
    match b
    case Included(a) => x <= a
    case Excluded(a) => x < a
    case Unbounded => true
  }

  /** `RangeBounds::contains`. */
  predicate Contains(r: Range, x: int) {
    AboveStart(r.start, x) && BelowEnd(r.end, x)
  }

  /** The bounds of Rust's range expressions `a..b`, `a..=b`, `a..`, `..b`, `..=b` and `..`. */
  lemma RangeSyntax(a: int, b: int, x: int)
    ensures Contains(Range(Included(a), Excluded(b)), x) <==> a <= x < b
    ensures Contains(Range(Included(a), Included(b)), x) <==> a <= x <= b
    ensures Contains(Range(Included(a), Unbounded), x) <==> a <= x
    ensures Contains(Range(Unbounded, Excluded(b)), x) <==> x < b
    ensures Contains(Range(Unbounded, Included(b)), x) <==> x <= b
    ensures Contains(Range(Unbounded, Unbounded), x)
  {
  }

  /** Passing the end bound is permanent: no larger value is contained either. */
  lemma PastEndStaysOut(r: Range, x: int, y: int)
    requires !BelowEnd(r.end, x) && x <= y
    ensures !Contains(r, y)
  {
  }
}
