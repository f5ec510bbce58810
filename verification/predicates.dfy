/**
 * Character classifiers the reader scans with, and the `any!` / `not!`
 * combinators, which the source writes as macros over a non-empty list of
 * predicates and which are modelled here as functions over that list.
 */
module Predicates {
  import opened Ranges

  type Predicate = char -> bool

  /** Accepts every character. */
  function Any(ch: char): (r: bool)
    ensures r
  {
    true
  }

  /** Accepts the line feed and nothing else. */
  function Newline(ch: char): (r: bool)
    ensures r <==> ch as int == 0x0A
  {
    ch == '\n'
  }

  /** Accepts the six ASCII whitespace characters: line feed, tab, carriage return, vertical tab, form feed, space. */
  function Whitespace(ch: char): (r: bool)
    ensures r <==> ch as int in {0x09, 0x0A, 0x0B, 0x0C, 0x0D, 0x20}
  {
    match ch
    case '\n' => true
    case '\t' => true
    case '\r' => true
    case '\U{000B}' => true
    case '\U{000C}' => true
    case ' ' => true
    case _ => false
  }

  /** `str::contains(char)`: a left-to-right search of `s` for `ch`. */
  function StrContains(s: string, ch: char): (r: bool)
    ensures r <==> exists i :: 0 <= i < |s| && s[i] == ch
  {
    if |s| == 0 then false
    else if s[0] == ch then true
    else
      var r := StrContains(s[1..], ch);
      assert forall i :: 1 <= i < |s| ==> s[i] == s[1..][i - 1];
      r
  }

  /** Accepts exactly the characters of `chars`. */
  function OneOf(chars: string): (p: Predicate)
    ensures forall ch :: p(ch) <==> ch in chars
  {
    ch => StrContains(chars, ch)
  }

  /** Accepts exactly the characters not in `chars`. */
  function NoneOf(chars: string): (p: Predicate)
    ensures forall ch :: p(ch) <==> ch !in chars
  {
    ch => !StrContains(chars, ch)
  }

  /** Accepts exactly the characters whose code point the range contains. */
  function RangeOf(range: Range): (p: Predicate)
    ensures forall ch :: p(ch) <==> Contains(range, ch as int)
  {
    ch => Contains(range, ch as int)
  }

  /** `any!(p1, ..., pn)` expands to `p1(ch) || any!(p2, ..., pn)`. */
  function Disjunction(ps: seq<Predicate>, ch: char): (r: bool)
    requires |ps| >= 1
    ensures r <==> exists i :: 0 <= i < |ps| && ps[i](ch)
  {
    if |ps| == 1 then ps[0](ch)
    else
      var r := ps[0](ch) || Disjunction(ps[1..], ch);
      assert forall i :: 1 <= i < |ps| ==> ps[i] == ps[1..][i - 1];
      r
  }

  /** `not!(p1, ..., pn)` expands to `!p1(ch) || not!(p2, ..., pn)`. */
  function NegatedDisjunction(ps: seq<Predicate>, ch: char): (r: bool)
    requires |ps| >= 1
    ensures r <==> exists i :: 0 <= i < |ps| && !ps[i](ch)
  {
    if |ps| == 1 then !ps[0](ch)
    else
      var r := !ps[0](ch) || NegatedDisjunction(ps[1..], ch);
      assert forall i :: 1 <= i < |ps| ==> ps[i] == ps[1..][i - 1];
      r
  }

  /** `any!`: accepts a character when some predicate of the list accepts it. */
  function AnyOf(ps: seq<Predicate>): (p: Predicate)
    requires |ps| >= 1
    ensures forall ch :: p(ch) <==> exists i :: 0 <= i < |ps| && ps[i](ch)
  {
    ch => Disjunction(ps, ch)
  }

  /**
   * `not!` as written: accepts a character when some predicate of the list
   * rejects it. With one predicate this is its negation.
   */
  function NotOf(ps: seq<Predicate>): (p: Predicate)
    requires |ps| >= 1
    ensures forall ch :: p(ch) <==> exists i :: 0 <= i < |ps| && !ps[i](ch)
  {
    ch => NegatedDisjunction(ps, ch)
  }

  /** "Any character except these": accepts a character when no predicate of the list accepts it. */
  function Except(ps: seq<Predicate>): (p: Predicate)
    requires |ps| >= 1
    ensures forall ch :: p(ch) <==> forall i :: 0 <= i < |ps| ==> !ps[i](ch)
  {
    ch => !Disjunction(ps, ch)
  }

  //------------------------------------------------------------------------------

  lemma NoneOfComplementsOneOf(chars: string, ch: char)
    ensures NoneOf(chars)(ch) == !OneOf(chars)(ch)
  {
  }

  lemma ExceptComplementsAnyOf(ps: seq<Predicate>, ch: char)
    requires |ps| >= 1
    ensures Except(ps)(ch) == !AnyOf(ps)(ch)
  {
  }

  /** With a single predicate, `not!` is exact negation, and agrees with `Except`. */
  lemma NotOfSingle(p: Predicate, ch: char)
    ensures NotOf([p])(ch) == !p(ch) == Except([p])(ch)
  {
  }

  /** `Whitespace` is `OneOf` the six characters it lists. */
  lemma WhitespaceIsOneOf(ch: char)
    ensures Whitespace(ch) == OneOf("\n\t\r\U{000B}\U{000C} ")(ch)
  {
    var s := "\n\t\r\U{000B}\U{000C} ";
    assert s[0] == '\n' && s[1] == '\t' && s[2] == '\r' && s[3] == '\U{000B}' && s[4] == '\U{000C}' && s[5] == ' ';
  }

  /**
   * With two predicates `not!` is not "except these": `not!(Newline, Whitespace)`
   * accepts the space, which `Whitespace` accepts; `Except` rejects it.
   */
  lemma NotOfIsNotExcept()
    ensures NotOf([Newline, Whitespace])(' ') && Whitespace(' ')
    ensures !Except([Newline, Whitespace])(' ')
  {
    var ps: seq<Predicate> := [Newline, Whitespace];
    assert !ps[0](' ');
    assert ps[1](' ');
  }
}
