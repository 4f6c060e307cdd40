/** Cell coordinates as the board writes them into each cell's callback:
    the string `${i}-${j}` built while rendering, and the decoding done
    when a cell is clicked, `coord.split('-').map(Number)`. */
module Coords {

  /** The JavaScript numbers this decoding can produce: a non-negative
      integer, or NaN for a part that is not a string of decimal digits. */
  datatype JsNumber = Num(value: nat) | NaN

  predicate IsDigit(c: char) {
    '0' <= c <= '9'
  }

  predicate AllDigits(s: string) {
    forall k :: 0 <= k < |s| ==> IsDigit(s[k])
  }

  function DigitChar(d: nat): (c: char)
    requires d < 10
    ensures IsDigit(c) && c as int - '0' as int == d
  {
    ('0' as int + d) as char
  }

  /** Template-literal conversion of a non-negative integer: its decimal
      digits, most significant first, with no leading zero. */
  function NatToString(n: nat): (s: string)
    ensures 1 <= |s| && AllDigits(s)
    ensures s[0] == '0' ==> n == 0 && |s| == 1
    decreases n
  {
    if n < 10 then [DigitChar(n)] else NatToString(n / 10) + [DigitChar(n % 10)]
  }

  /** The value of a string of decimal digits; the empty string is 0, as
      `Number("")` is. */
  function DigitsValue(s: string): nat
    requires AllDigits(s)
    decreases |s|
  {
    if s == [] then 0
    else DigitsValue(s[..|s| - 1]) * 10 + (s[|s| - 1] as int - '0' as int)
  }

  /** `Number(s)` restricted to what the decoding can meet: a digit string
      (possibly empty) is an integer, anything else is NaN. */
  function NumberOf(s: string): JsNumber {
    if AllDigits(s) then Num(DigitsValue(s)) else NaN
  }

  /** `s.split(sep)` for a one-character separator: the maximal
      separator-free pieces, in order; the empty string splits into one
      empty piece. */
  function Split(s: string, sep: char): (parts: seq<string>)
    ensures 1 <= |parts|
    ensures forall k :: 0 <= k < |parts| ==> sep !in parts[k]
    decreases |s|
  {
    if s == [] then [[]]
    else
      var rest := Split(s[1..], sep);
      if s[0] == sep then [[]] + rest
      else [[s[0]] + rest[0]] + rest[1..]
  }

  /** `parts.join(sep)`: the inverse of Split. */
  function Join(parts: seq<string>, sep: char): string
    decreases |parts|
  {
    if parts == [] then []
    else if |parts| == 1 then parts[0]
    else parts[0] + [sep] + Join(parts[1..], sep)
  }

  /** The key and callback coordinate of cell (i, j): `${i}-${j}`. */
  function FormatCoord(i: nat, j: nat): string {
    NatToString(i) + "-" + NatToString(j)
  }

  /** `let [y, x] = coord.split('-').map(Number)`: every piece is converted,
      the first two are kept, and a missing second piece (undefined) acts
      as NaN in the comparisons and arithmetic that follow. */
  function ParseCoord(coord: string): (JsNumber, JsNumber) {
    var parts := Split(coord, '-');
    var nums := seq(|parts|, k requires 0 <= k < |parts| => NumberOf(parts[k]));
    (nums[0], if |nums| >= 2 then nums[1] else NaN)
  }

  /** Reading back the digits of a number gives the number. */
  lemma {:induction false} DigitsValueOfNatToString(n: nat)
    ensures DigitsValue(NatToString(n)) == n
    decreases n
  {
    var s := NatToString(n);
    if n >= 10 {
      DigitsValueOfNatToString(n / 10);
      assert s[..|s| - 1] == NatToString(n / 10);
    }
  }

  /** Number(`${n}`) == n. */
  lemma NumberOfNatToString(n: nat)
    ensures NumberOf(NatToString(n)) == Num(n)
  {
    DigitsValueOfNatToString(n);
  }

  /** A separator-free prefix joins the first piece of what follows it. */
  lemma {:induction false} SplitPrefix(a: string, rest: string, sep: char)
    requires sep !in a
    ensures Split(a + rest, sep) == [a + Split(rest, sep)[0]] + Split(rest, sep)[1..]
    decreases |a|
  {
    if a != [] {
      assert (a + rest)[1..] == a[1..] + rest;
      SplitPrefix(a[1..], rest, sep);
      assert [a[0]] + (a[1..] + Split(rest, sep)[0]) == a + Split(rest, sep)[0];
    } else {
      var parts := Split(rest, sep);
      assert a + rest == rest && a + parts[0] == parts[0];
      assert [parts[0]] + parts[1..] == parts;
    }
  }

  /** Joining the pieces of a split gives back the string. */
  lemma {:induction false} JoinSplit(s: string, sep: char)
    ensures Join(Split(s, sep), sep) == s
    decreases |s|
  {
    if s != [] {
      JoinSplit(s[1..], sep);
      var rest := Split(s[1..], sep);
      if s[0] != sep {
        if |rest| == 1 {
          assert Split(s, sep) == [[s[0]] + rest[0]];
        } else {
          assert ([[s[0]] + rest[0]] + rest[1..])[1..] == rest[1..];
          assert Join(rest, sep) == rest[0] + [sep] + Join(rest[1..], sep);
        }
      } else {
        assert ([[]] + rest)[1..] == rest;
      }
    }
  }

  /** Splitting a join of separator-free pieces gives back the pieces. */
  lemma {:induction false} SplitJoin(parts: seq<string>, sep: char)
    requires 1 <= |parts|
    requires forall k :: 0 <= k < |parts| ==> sep !in parts[k]
    ensures Split(Join(parts, sep), sep) == parts
    decreases |parts|
  {
    if |parts| == 1 {
      SplitPrefix(parts[0], [], sep);
      assert parts[0] + [] == parts[0];
    } else {
      var tail := Join(parts[1..], sep);
      SplitJoin(parts[1..], sep);
      assert parts[0] + [sep] + tail == parts[0] + ([sep] + tail);
      SplitPrefix(parts[0], [sep] + tail, sep);
      assert ([sep] + tail)[1..] == tail;
      var after := Split([sep] + tail, sep);
      assert after == [[]] + Split(tail, sep);
      assert after[0] == [] && after[1..] == parts[1..];
      assert parts[0] + after[0] == parts[0];
      assert parts == [parts[0]] + parts[1..];
    }
  }

  /** Decoding the coordinate string of cell (i, j) yields (i, j). */
  lemma ParseFormatCoord(i: nat, j: nat)
    ensures ParseCoord(FormatCoord(i, j)) == (Num(i), Num(j))
  {
    var a, b := NatToString(i), NatToString(j);
    assert '-' !in a && '-' !in b;
    assert Join([a, b], '-') == FormatCoord(i, j);
    SplitJoin([a, b], '-');
    NumberOfNatToString(i);
    NumberOfNatToString(j);
  }

  /** Distinct cells get distinct coordinate strings, so the strings are
      usable as keys. */
  lemma FormatCoordInjective(i: nat, j: nat, i': nat, j': nat)
    ensures FormatCoord(i, j) == FormatCoord(i', j') <==> i == i' && j == j'
  {
    ParseFormatCoord(i, j);
    ParseFormatCoord(i', j');
  }
}
