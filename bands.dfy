/** Numeric bands: the `"min-max"` strings of the height and spread facets,
    the part of JavaScript's `String.prototype.split` and `Number` that
    reading them relies on, and the closed-interval overlap test. */
module Bands {

  /** A JavaScript number as `Number(...)` yields it for a band piece: an
      integer, or NaN for text that is not a number (and for `undefined`,
      which compares like NaN). */
  datatype Number = Finite(value: int) | NaN

  /** JavaScript's `<` on numbers: every comparison involving NaN is false. */
  predicate Less(x: Number, y: Number) {
    x.Finite? && y.Finite? && x.value < y.value
  }

  /** `overlaps`: do the closed intervals [minA, maxA] and [minB, maxB] meet? */
  predicate Overlaps(minA: Number, maxA: Number, minB: Number, maxB: Number) {
    !(Less(maxA, minB) || Less(maxB, minA))
  }

  predicate Within(x: int, lo: int, hi: int) {
    lo <= x <= hi
  }

  /** For finite, well-ordered intervals the test is exactly "they share a point". */
  lemma OverlapsIffCommonPoint(minA: int, maxA: int, minB: int, maxB: int)
    requires minA <= maxA && minB <= maxB
    ensures Overlaps(Finite(minA), Finite(maxA), Finite(minB), Finite(maxB))
            <==> exists x :: Within(x, minA, maxA) && Within(x, minB, maxB)
  {
    if Overlaps(Finite(minA), Finite(maxA), Finite(minB), Finite(maxB)) {
      var x := if minA < minB then minB else minA;
      assert Within(x, minA, maxA) && Within(x, minB, maxB);
    }
  }

  /** The test does not depend on which interval comes first. */
  lemma OverlapsSymmetric(minA: Number, maxA: Number, minB: Number, maxB: Number)
    ensures Overlaps(minA, maxA, minB, maxB) == Overlaps(minB, maxB, minA, maxA)
  {
  }

  /** A band whose bounds both failed to parse excludes nothing. */
  lemma OverlapsNaNBand(minA: Number, maxA: Number)
    ensures Overlaps(minA, maxA, NaN, NaN)
  {
  }

  /** `String.prototype.split` with a one-character separator: the pieces
      between separators, always at least one, none containing the separator. */
  function Split(s: string, sep: char): (pieces: seq<string>)
    ensures |pieces| >= 1
    ensures forall i :: 0 <= i < |pieces| ==> sep !in pieces[i]
    decreases |s|
  {
    if s == [] then [""]
    else
      var rest := Split(s[1..], sep);
      if s[0] == sep then [""] + rest
      else [[s[0]] + rest[0]] + rest[1..]
  }

  /** `Array.prototype.join`: the pieces glued back together with the separator. */
  function Join(pieces: seq<string>, sep: char): string
    decreases |pieces|
  {
    if pieces == [] then ""
    else if |pieces| == 1 then pieces[0]
    else pieces[0] + [sep] + Join(pieces[1..], sep)
  }

  /** Splitting loses nothing: joining the pieces gives the text back. */
  lemma {:induction false} JoinSplit(s: string, sep: char)
    ensures Join(Split(s, sep), sep) == s
    decreases |s|
  {
    if s != [] {
      var rest := Split(s[1..], sep);
      JoinSplit(s[1..], sep);
      if s[0] == sep {
        assert Split(s, sep) == [""] + rest;
        assert s == [sep] + s[1..];
      } else {
        var pieces := Split(s, sep);
        assert pieces == [[s[0]] + rest[0]] + rest[1..];
        if |rest| == 1 {
          assert s == [s[0]] + rest[0];
        } else {
          assert pieces[1..] == rest[1..];
          assert s == [s[0]] + (rest[0] + [sep] + Join(rest[1..], sep));
        }
      }
    }
  }

  /** Text with no separator in it is one piece, and a separator after such
      text starts the next piece. */
  lemma {:induction false} SplitAfterPiece(a: string, sep: char, b: string)
    requires sep !in a
    ensures Split(a + [sep] + b, sep) == [a] + Split(b, sep)
    decreases |a|
  {
    if a == [] {
      assert a + [sep] + b == [sep] + b;
    } else {
      SplitAfterPiece(a[1..], sep, b);
      var s := a + [sep] + b;
      assert s[0] == a[0] && s[0] != sep;
      assert s[1..] == a[1..] + [sep] + b;
      var rest := Split(s[1..], sep);
      assert rest[0] == a[1..] && rest[1..] == Split(b, sep);
      assert [a[0]] + a[1..] == a;
    }
  }

  lemma {:induction false} SplitWhole(a: string, sep: char)
    requires sep !in a
    ensures Split(a, sep) == [a]
    decreases |a|
  {
    if a != [] {
      SplitWhole(a[1..], sep);
      assert a == [a[0]] + a[1..];
    }
  }

  predicate IsDigits(s: string) {
    forall i :: 0 <= i < |s| ==> '0' <= s[i] <= '9'
  }

  /** The value of a decimal digit string, read left to right. */
  function DigitsValue(s: string): nat
    requires IsDigits(s)
    decreases |s|
  {
    if s == [] then 0
    else DigitsValue(s[..|s| - 1]) * 10 + (s[|s| - 1] as int - '0' as int)
  }

  /** `Number(piece)` on the pieces of a band: a digit string gives its value
      and the empty string gives 0; any other text is taken to be NaN. */
  function ToNumber(piece: string): Number {
    if piece == "" then Finite(0)
    else if IsDigits(piece) then Finite(DigitsValue(piece))
    else NaN
  }

  /** `parseBand`: the first two pieces of the text split on `-`, each through
      `Number`; a missing second piece is `undefined`, which compares as NaN. */
  function ParseBand(text: string): (Number, Number) {
    var pieces := Split(text, '-');
    (ToNumber(pieces[0]), if |pieces| > 1 then ToNumber(pieces[1]) else NaN)
  }

  /** `"m-n"` for digit strings m and n reads as the pair of their values
      (an empty piece reads as 0, so `"-60"` is [0, 60]). */
  lemma ParseBandDigits(m: string, n: string)
    requires IsDigits(m) && IsDigits(n)
    ensures ParseBand(m + "-" + n) == (Finite(DigitsValue(m)), Finite(DigitsValue(n)))
  {
    assert '-' !in n;
    SplitAfterPiece(m, '-', n);
    SplitWhole(n, '-');
    assert m + "-" + n == m + ['-'] + n;
  }

  function Digit(d: nat): (c: char)
    requires d < 10
    ensures '0' <= c <= '9'
  {
    ('0' as int + d) as char
  }

  /** The decimal text of a natural number, without leading zeros. */
  function Show(n: nat): (s: string)
    ensures s != [] && IsDigits(s)
    decreases n
  {
    if n < 10 then [Digit(n)] else Show(n / 10) + [Digit(n % 10)]
  }

  lemma {:induction false} DigitsValueShow(n: nat)
    ensures DigitsValue(Show(n)) == n
    decreases n
  {
    if n >= 10 {
      DigitsValueShow(n / 10);
      var s := Show(n);
      assert s[..|s| - 1] == Show(n / 10);
    }
  }

  /** Round trip: the band written from two numbers parses back to them. */
  lemma ParseBandShow(lo: nat, hi: nat)
    ensures ParseBand(Show(lo) + "-" + Show(hi)) == (Finite(lo), Finite(hi))
  {
    ParseBandDigits(Show(lo), Show(hi));
    DigitsValueShow(lo);
    DigitsValueShow(hi);
  }
}
