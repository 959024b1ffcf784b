/**
 * cgraph/src/array.c: growable integer arrays, a C version of Python's
 * `range`, the extremes of an array, and the pairing of x and y values a
 * graph is drawn from. Every `check` of the source ends the process with
 * an error tag; here it is the `Exit` alternative of `Checked`.
 */
module CArray {

  /** The error tags of cgraph/src/cli.h that `check` prints before exiting. */
  datatype Tag = ErrorFile | ErrorArrayEmpty | ErrorArrayGap | ErrorArrayIllogical | ErrorGraph

  /** The text `check` prints for each tag. */
  function Message(t: Tag): (m: string)
    ensures |m| > 0
  {
    match t
    case ErrorFile => "FileError: 404 File not found"
    case ErrorArrayEmpty => "ArrayError: Attempt to create an empty array"
    case ErrorArrayGap => "ArrayError: Gap between each values must not be zero"
    case ErrorArrayIllogical => "ArrayError: Attempt to create an array with an illogical range"
    case ErrorGraph => "GraphError: Extremums are not high enough to see a difference"
  }

  /** A value, or the process exiting through `check` with a tag. */
  datatype Checked<T> = Ok(value: T) | Exit(tag: Tag)

  /** The range of a 32-bit C `int`. */
  const IntMin: int := -0x8000_0000
  const IntMax: int := 0x7fff_ffff

  predicate IsInt(x: int) {
    IntMin <= x <= IntMax
  }

  function Abs(x: int): nat {
    if x < 0 then -x else x
  }

  /** C's integer `/`: the quotient truncated toward zero. */
  function CDiv(a: int, b: int): int
    requires b != 0
  {
    var q := Abs(a) / Abs(b);
    if (a < 0) == (b < 0) then q else -q
  }

  /**
   * The truncated quotient: its magnitude is the whole number of times `b`
   * goes into `a`, and it is negative only when the signs differ.
   */
  lemma CDivTruncates(a: int, b: int)
    requires b != 0
    ensures Abs(CDiv(a, b)) * Abs(b) <= Abs(a) < (Abs(CDiv(a, b)) + 1) * Abs(b)
    ensures CDiv(a, b) < 0 ==> (a < 0) != (b < 0)
    ensures a == 0 ==> CDiv(a, b) == 0
  {
    assert Abs(CDiv(a, b)) == Abs(a) / Abs(b);
    QuotientFits(Abs(a), Abs(b));
  }

  /** Whole steps of `y` below `x`, from a quotient and remainder. */
  lemma QuotientFits(x: nat, y: nat)
    requires y > 0
    ensures x / y * y <= x < (x / y + 1) * y
    ensures x == 0 ==> x / y == 0
  {
    var q, m := x / y, x % y;
    assert x == q * y + m && 0 <= m < y;
    assert (q + 1) * y == q * y + y;
  }

  /** `Extrem`: the largest and smallest values found in an array. */
  datatype Extrem = Extrem(max: int, min: int)

  /**
   * `Array`: an integer buffer and its length. `ex` is the header's
   * extremes slot, which no function of array.c fills; a zero-initialised
   * struct leaves it at 0 and 0.
   */
  class Array {
    var content: seq<int>
    var length: nat
    var ex: Extrem

    /** `length` counts the buffer's cells. */
    ghost predicate Valid()
      reads this
    {
      length == |content|
    }

    /** A struct initialised with the given buffer, its length, and zero extremes. */
    constructor (content: seq<int>)
      ensures Valid() && this.content == content && ex == Extrem(0, 0)
    {
      this.content := content;
      length := |content|;
      ex := Extrem(0, 0);
    }

    /** `append_int`: the buffer grows by one cell holding `item`; what was there stays. */
    method Append(item: int)
      requires Valid()
      modifies this
      ensures Valid() && content == old(content) + [item] && length == old(length) + 1
      ensures ex == old(ex)
    {
      content := content + [item];
      length := length + 1;
    }
  }

  /**
   * `Array2D`: a buffer of `Array` structs and its length. A struct is
   * copied in by value, so each row is the element sequence it had then.
   */
  class Array2D {
    var content: seq<seq<int>>
    var length: nat

    ghost predicate Valid()
      reads this
    {
      length == |content|
    }

    /** `Array2D array = {}`: no rows. */
    constructor ()
      ensures Valid() && content == []
    {
      content := [];
      length := 0;
    }

    /** `append_array`: the buffer grows by one row, a copy of `item`; earlier rows stay. */
    method Append(item: Array)
      requires Valid() && item.Valid()
      modifies this
      ensures Valid() && content == old(content) + [item.content] && length == old(length) + 1
    {
      content := content + [item.content];
      length := length + 1;
    }
  }

  /**
   * `first < last && !s_gap || first > last && s_gap`: the gap walks away
   * from `last` instead of toward it.
   */
  predicate Illogical(first: int, last: int, gap: int) {
    (first < last && gap <= 0) || (first > last && gap > 0)
  }

  /** What `range(first, last, gap)` produces: an error tag or the elements. */
  function Ranged(first: int, last: int, gap: int): (r: Checked<seq<int>>)
    ensures r.Ok? ==> |r.value| >= 1
    ensures r.Exit? ==> r.tag == ErrorArrayGap || r.tag == ErrorArrayIllogical || r.tag == ErrorArrayEmpty
  {
    if gap == 0 then Exit(ErrorArrayGap)
    else if Illogical(first, last, gap) then Exit(ErrorArrayIllogical)
    else
      var n := CDiv(last - first, gap);
      if n <= 0 then Exit(ErrorArrayEmpty)
      else Ok(seq(n, i => first + i * gap))
  }

  /**
   * `range` fails exactly when the gap is zero, points away from `last`,
   * or is larger than the distance to `last` (including `first == last`),
   * and each failure carries its own tag.
   */
  lemma RangeErrors(first: int, last: int, gap: int)
    ensures Ranged(first, last, gap) == Exit(ErrorArrayGap) <==> gap == 0
    ensures Ranged(first, last, gap) == Exit(ErrorArrayIllogical) <==> gap != 0 && Illogical(first, last, gap)
    ensures Ranged(first, last, gap) == Exit(ErrorArrayEmpty) <==>
      gap != 0 && !Illogical(first, last, gap) && Abs(last - first) < Abs(gap)
    ensures Ranged(first, last, gap).Ok? <==>
      gap != 0 && !Illogical(first, last, gap) && Abs(last - first) >= Abs(gap)
  {
    if gap != 0 && !Illogical(first, last, gap) {
      ShortSpan(last - first, gap);
    }
  }

  /** With the gap pointing toward `last`, the quotient is positive exactly when the span holds a whole gap. */
  lemma ShortSpan(d: int, gap: int)
    requires gap != 0 && (d == 0 || (d < 0) == (gap < 0))
    ensures CDiv(d, gap) > 0 <==> Abs(d) >= Abs(gap)
  {
    CDivTruncates(d, gap);
  }

  /**
   * A successful `range` starts at `first`, steps by `gap`, and stops
   * before `last`: it holds the whole steps that fit and drops a partial
   * final one, where Python's `range` would keep it. Every element lies
   * between `first` and `last`, so none overflows an `int` when the ends
   * do not.
   */
  lemma RangeSteps(first: int, last: int, gap: int)
    requires Ranged(first, last, gap).Ok?
    ensures var c := Ranged(first, last, gap).value;
      |c| >= 1 && c[0] == first &&
      (forall i :: 0 < i < |c| ==> c[i] == c[i - 1] + gap) &&
      |c| * Abs(gap) <= Abs(last - first) < (|c| + 1) * Abs(gap) &&
      (forall i :: 0 <= i < |c| ==> if gap > 0 then first <= c[i] < last else last < c[i] <= first)
  {
    var c := Ranged(first, last, gap).value;
    var d := last - first;
    assert gap != 0 && !Illogical(first, last, gap);
    var n := CDiv(d, gap);
    assert n > 0 && c == seq(n, i => first + i * gap);
    CDivTruncates(d, gap);
    assert Abs(n) == n == |c|;
    assert n * Abs(gap) <= Abs(d) < (n + 1) * Abs(gap);
    assert |c| * Abs(gap) <= Abs(last - first) < (|c| + 1) * Abs(gap);
    forall i | 0 < i < |c|
      ensures c[i] == c[i - 1] + gap
    {
      assert i * gap == (i - 1) * gap + gap;
    }
    assert (d < 0) == (gap < 0) && first != last;
    forall i | 0 <= i < |c|
      ensures if gap > 0 then first <= c[i] < last else last < c[i] <= first
    {
      InStride(i, n, gap, last - first);
    }
  }

  /** `i` whole steps of `g`, with fewer than `n` of them fitting in `d`, stay inside `d`. */
  lemma InStride(i: int, n: int, g: int, d: int)
    requires 0 <= i < n && g != 0 && (d < 0) == (g < 0)
    requires n * Abs(g) <= Abs(d)
    ensures if g > 0 then 0 <= i * g < d else d < i * g <= 0
  {
    if g > 0 {
      assert i * g < n * g;
    } else {
      assert i * Abs(g) < n * Abs(g);
      assert i * g == -(i * Abs(g));
    }
  }

  /**
   * `range(first, last, gap)`: the gap and direction checks, the length
   * `(last - first) / gap` with C's truncation, the empty check, and the
   * loop writing `first` and adding `gap`. The difference `last - first`
   * and its quotient by `gap` must be `int`s (C leaves an overflow
   * undefined; the one quotient that overflows is `INT_MIN / -1`).
   */
  method Range(first: int, last: int, gap: int) returns (r: Checked<Array>)
    requires IsInt(first) && IsInt(last) && IsInt(gap) && IsInt(last - first)
    requires !(last - first == -2147483648 && gap == -1)
    ensures r.Exit? ==> Ranged(first, last, gap) == Exit(r.tag)
    ensures r.Ok? ==> fresh(r.value) && r.value.Valid() && Ranged(first, last, gap) == Ok(r.value.content)
  {
    if gap == 0 {
      return Exit(ErrorArrayGap);
    }
    var increasing := gap > 0;
    if (first < last && !increasing) || (first > last && increasing) {
      return Exit(ErrorArrayIllogical);
    }
    var n := CDiv(last - first, gap);
    if n <= 0 {
      return Exit(ErrorArrayEmpty);
    }
    RangeSteps(first, last, gap);
    var buf := new int[n];
    var next := first;
    for i := 0 to n
      invariant next == first + i * gap
      invariant forall k :: 0 <= k < i ==> buf[k] == first + k * gap
    {
      buf[i] := next;
      next := next + gap;
    }
    assert buf[..] == seq(n, i => first + i * gap);
    var res := new Array(buf[..]);
    return Ok(res);
  }

  /**
   * The extremes after the first `n` steps of `extremum`'s loop: `max`
   * starts at 0 and `min` at the first element; an element above `max`
   * replaces it, and otherwise one below `min` replaces that.
   */
  function Scanned(a: seq<int>, n: nat): (e: Extrem)
    requires 1 <= |a| && n <= |a|
    ensures e.max >= 0 && e.min <= a[0]
  {
    if n == 0 then Extrem(0, a[0])
    else
      var e := Scanned(a, n - 1);
      var x := a[n - 1];
      if x > e.max then e.(max := x)
      else if x < e.min then e.(min := x)
      else e
  }

  /**
   * `extremum` over the whole array: every element lies between the two
   * results, and the minimum is one of the elements.
   */
  function Extremes(a: seq<int>): (e: Extrem)
    requires 1 <= |a|
    ensures forall k :: 0 <= k < |a| ==> e.min <= a[k] <= e.max
    ensures e.min in a
  {
    ScannedFacts(a, |a|);
    assert a[..|a|] == a;
    Scanned(a, |a|)
  }

  /** What `Scanned` keeps true after each step past the first. */
  ghost predicate ScanFacts(a: seq<int>, n: nat, e: Extrem)
    requires 1 <= n <= |a|
  {
    (forall k :: 0 <= k < n ==> e.min <= a[k] <= e.max) &&
    e.min in a[..n] && e.max >= 0 && (e.max == 0 || e.max in a[..n]) && e.min <= e.max
  }

  lemma {:induction false} ScannedFacts(a: seq<int>, n: nat)
    requires 1 <= n <= |a|
    ensures ScanFacts(a, n, Scanned(a, n))
  {
    if n > 1 {
      ScannedFacts(a, n - 1);
      assert a[..n] == a[..n - 1] + [a[n - 1]];
    } else {
      assert a[..1] == [a[0]];
    }
  }

  /**
   * `extremum`: `min` is the smallest element; `max` is the largest
   * element when some element is at least 0, and 0 when all are negative,
   * because it starts at 0. Skipping the `min` test after raising `max`
   * loses nothing.
   */
  lemma ExtremesBounds(a: seq<int>)
    requires 1 <= |a|
    ensures var e := Extremes(a);
      (forall k :: 0 <= k < |a| ==> e.min <= a[k] <= e.max) && e.min in a &&
      ((exists k :: 0 <= k < |a| && a[k] >= 0) ==> e.max in a) &&
      ((forall k :: 0 <= k < |a| ==> a[k] < 0) ==> e.max == 0)
  {
    ScannedFacts(a, |a|);
    assert a[..|a|] == a;
  }

  /**
   * `extremum(&array, &length)`: the loop over the array. The source reads
   * the first element before looking at the length, so the array must not
   * be empty.
   */
  method Extremum(a: seq<int>) returns (e: Extrem)
    requires 1 <= |a|
    ensures e == Extremes(a)
  {
    e := Extrem(0, a[0]);
    for i := 0 to |a|
      invariant e == Scanned(a, i)
    {
      if a[i] > e.max {
        e := e.(max := a[i]);
      } else if a[i] < e.min {
        e := e.(min := a[i]);
      }
    }
  }

  /**
   * `ArrayXY`: paired x and y values, their common length, and the
   * extremes of each.
   */
  datatype ArrayXY = ArrayXY(x: seq<int>, y: seq<int>, length: nat, xExt: Extrem, yExt: Extrem)

  /** A pairing whose parts agree: both sequences are `length` long, with their extremes. */
  ghost predicate Paired(r: ArrayXY) {
    |r.x| == r.length && |r.y| == r.length && r.length >= 1 &&
    r.xExt == Extremes(r.x) && r.yExt == Extremes(r.y)
  }

  /**
   * `fromFn(x, fn)`: an empty `x` is an error; otherwise `x` is kept as
   * the x values, `y[i]` is `fn(x[i])`, and both extremes are taken.
   */
  method FromFn(x: Array, fn: int -> int) returns (r: Checked<ArrayXY>)
    requires x.Valid()
    ensures x.length == 0 <==> r == Exit(ErrorArrayEmpty)
    ensures r.Ok? ==> Paired(r.value) && r.value.x == x.content
    ensures r.Ok? ==> forall i :: 0 <= i < r.value.length ==> r.value.y[i] == fn(x.content[i])
  {
    if x.length == 0 {
      return Exit(ErrorArrayEmpty);
    }
    var xs := x.content;
    var xExt := Extremum(xs);
    var y := new int[x.length];
    for i := 0 to x.length
      invariant forall k :: 0 <= k < i ==> y[k] == fn(xs[k])
    {
      y[i] := fn(xs[i]);
    }
    var ys := y[..];
    var yExt := Extremum(ys);
    return Ok(ArrayXY(xs, ys, x.length, xExt, yExt));
  }

  /** Every row holds at least the two columns `from2D` reads. */
  ghost predicate TwoColumns(rows: seq<seq<int>>) {
    forall i :: 0 <= i < |rows| ==> |rows[i]| >= 2
  }

  /**
   * `from2D(data)`: row `i` gives `x[i]` from its first column and `y[i]`
   * from its second, and both extremes are taken. The source checks
   * neither the row widths nor that there is a row.
   */
  method From2D(data: Array2D) returns (r: ArrayXY)
    requires data.Valid() && data.length >= 1 && TwoColumns(data.content)
    ensures Paired(r) && r.length == data.length
    ensures forall i :: 0 <= i < r.length ==>
      r.x[i] == data.content[i][0] && r.y[i] == data.content[i][1]
  {
    var rows := data.content;
    var x := new int[data.length];
    var y := new int[data.length];
    for i := 0 to data.length
      invariant forall k :: 0 <= k < i ==> x[k] == rows[k][0] && y[k] == rows[k][1]
    {
      x[i] := rows[i][0];
      y[i] := rows[i][1];
    }
    var xs, ys := x[..], y[..];
    var xExt := Extremum(xs);
    var yExt := Extremum(ys);
    r := ArrayXY(xs, ys, data.length, xExt, yExt);
  }
}
