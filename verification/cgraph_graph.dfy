/**
 * The integer helpers of cgraph/src/graph.c: the printed width of an
 * `int`, the wider of two extremes, and a run of one character.
 */
module CGraph {
  import opened CArray

  /** The number of decimal digits of `m`, none for 0. */
  function Digits(m: nat): nat {
    if m == 0 then 0 else 1 + Digits(m / 10)
  }

  /** The characters `printf("%i", n)` writes: a `-` or a lone `0`, then the digits. */
  function Width(n: int): (w: nat)
    ensures w >= 1 && (n < 0 ==> w >= 2)
  {
    (if n <= 0 then 1 else 0) + Digits(Abs(n))
  }

  function Pow10(k: nat): nat {
    if k == 0 then 1 else 10 * Pow10(k - 1)
  }

  /** A positive `m` has `d` digits exactly when it lies in [10^(d-1), 10^d). */
  lemma {:induction false} DigitsBounds(m: nat)
    requires m > 0
    ensures Digits(m) >= 1 && Pow10(Digits(m) - 1) <= m < Pow10(Digits(m))
  {
    if m >= 10 {
      DigitsBounds(m / 10);
    }
  }

  /**
   * `digit`'s width: 1 for zero, the decimal digit count for a positive
   * number, and one more than that of its magnitude for a negative one.
   */
  lemma WidthCases(n: int)
    ensures Width(n) >= 1
    ensures n == 0 ==> Width(n) == 1
    ensures n > 0 ==> Pow10(Width(n) - 1) <= n < Pow10(Width(n))
    ensures n < 0 ==> Width(n) == Width(-n) + 1
  {
    if n != 0 {
      DigitsBounds(Abs(n));
    }
  }

  /** One pass of `digit`'s loop removes one digit, with C's truncating division. */
  lemma DropDigit(n: int)
    requires n != 0
    ensures Digits(Abs(CDiv(n, 10))) + 1 == Digits(Abs(n))
  {
    assert Abs(CDiv(n, 10)) == Abs(n) / 10;
  }

  /**
   * `digit(number)`: one for a number at most 0, then one per division by
   * 10 until the number reaches 0. The result is the printed width.
   */
  method Digit(number: int) returns (counter: nat)
    ensures counter == Width(number)
  {
    var n := number;
    counter := 0;
    if n <= 0 {
      counter := counter + 1;
    }
    while n != 0
      invariant counter + Digits(Abs(n)) == Width(number)
      decreases Abs(n)
    {
      DropDigit(n);
      n := CDiv(n, 10);
      counter := counter + 1;
    }
  }

  /** `digit_ext(ext)`: the width of the wider of the two extremes. */
  method DigitExt(ext: Extrem) returns (d: nat)
    ensures d >= Width(ext.max) && d >= Width(ext.min)
    ensures d == Width(ext.max) || d == Width(ext.min)
  {
    var dMax := Digit(ext.max);
    var dMin := Digit(ext.min);
    if dMax > dMin {
      return dMax;
    } else {
      return dMin;
    }
  }

  /**
   * `charmult(src, occurence)`: a new buffer of exactly `occurence` cells,
   * each `src`, with no terminating cell.
   */
  method CharMult(src: char, occurence: int) returns (s: array<char>)
    requires 0 <= occurence
    ensures fresh(s) && s.Length == occurence
    ensures forall i :: 0 <= i < s.Length ==> s[i] == src
  {
    s := new char[occurence](_ => '\0');
    for i := 0 to occurence
      invariant forall k :: 0 <= k < i ==> s[k] == src
    {
      s[i] := src;
    }
  }
}
