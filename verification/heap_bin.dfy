/**
 * sort/heap.py: `HeapBin`, a list that keeps a parallel list of weights
 * (`key(item)` for each item) and re-orders both with an in-place heap sort
 * whenever it is built, appended to or removed from.
 *
 * The reordering `__sort__`/`__heapify__` performs is specified by the
 * functions `Sifted`, `BuildDown`, `ExtractDown` and `HeapSorted` on the item
 * list alone: the weights list always mirrors it, so the weights are
 * `key` of the items at every step.
 */
module Heap {
  import opened Results

  /** The list with the elements at positions `i` and `j` exchanged. */
  function Swap<T>(s: seq<T>, i: nat, j: nat): (r: seq<T>)
    requires i < |s| && j < |s|
    ensures |r| == |s| && r[i] == s[j] && r[j] == s[i]
    ensures forall k :: 0 <= k < |s| && k != i && k != j ==> r[k] == s[k]
  {
    s[i := s[j]][j := s[i]]
  }

  /** The weights of a list of items: `key` of each, position by position. */
  ghost predicate Mirrors<T>(key: T -> int, items: seq<T>, weights: seq<int>) {
    |weights| == |items| && forall k :: 0 <= k < |items| ==> weights[k] == key(items[k])
  }

  /**
   * Where `__heapify__` starts `i_new`: at 0, as the source does, or at `i`,
   * as a sift-down evidently intends.
   */
  datatype Start = FromZero | FromI

  /** The first value of `i_new` in `__heapify__(n, i)`. */
  function Initial(start: Start, i: nat): nat {
    match start
    case FromZero => 0
    case FromI => i
  }

  /**
   * The choice of `i_new` in `__heapify__(n, i)`: its first value, unless
   * the right child `2i + 2` is inside the heap and heavier than position
   * `i`; then the left child `2i + 1` if it is inside the heap and heavier
   * than position `i_new`. A choice other than the first value is always a
   * child of `i`. Started at `i`, the choice is the heaviest of `i` and its
   * children inside the heap.
   */
  function Larger<T>(key: T -> int, s: seq<T>, n: nat, i: nat, start: Start): (j: nat)
    requires n <= |s|
    ensures j == Initial(start, i) || (i < j < n && (j == 2 * i + 1 || j == 2 * i + 2))
    ensures start == FromI && i < n ==>
      j < n && key(s[j]) >= key(s[i]) &&
      (2 * i + 1 < n ==> key(s[j]) >= key(s[2 * i + 1])) &&
      (2 * i + 2 < n ==> key(s[j]) >= key(s[2 * i + 2]))
  {
    var left, right := 2 * i + 1, 2 * i + 2;
    var j := if right < n && key(s[i]) < key(s[right]) then right else Initial(start, i);
    if left < n && key(s[j]) < key(s[left]) then left else j
  }

  /**
   * `__heapify__(n, i)`: when `i_new` is no longer its first value,
   * positions `i` and `i_new` are exchanged and the sift continues from
   * `i_new`, a child of `i`, so the recursion ends. As written (`FromZero`)
   * the left child is compared with position 0 rather than with `i`
   * whenever the right child did not win.
   */
  function Sifted<T>(key: T -> int, s: seq<T>, n: nat, i: nat, start: Start): (r: seq<T>)
    requires n <= |s|
    ensures |r| == |s|
    decreases n - i
  {
    var j := Larger(key, s, n, i, start);
    if j != Initial(start, i) then Sifted(key, Swap(s, i, j), n, j, start) else s
  }

  /**
   * The first loop of `__sort__` over a heap of `n` positions:
   * `__heapify__(n, k)` for `k` from `hi - 1` down to `lo`.
   */
  function BuildDown<T>(key: T -> int, s: seq<T>, n: nat, hi: int, lo: nat, start: Start): (r: seq<T>)
    requires n <= |s|
    ensures |r| == |s|
    decreases hi - lo
  {
    if hi <= lo then s else Sifted(key, BuildDown(key, s, n, hi, lo + 1, start), n, lo, start)
  }

  /**
   * The second loop of `__sort__`: for `k` from `hi` down to `lo`, exchange
   * positions 0 and `k`, then `__heapify__(k, 0)`.
   */
  function ExtractDown<T>(key: T -> int, s: seq<T>, hi: int, lo: nat, start: Start): (r: seq<T>)
    requires hi < |s|
    ensures |r| == |s|
    decreases hi - lo
  {
    if hi < lo then s
    else
      var t := ExtractDown(key, s, hi, lo + 1, start);
      Sifted(key, Swap(t, 0, lo), lo, 0, start)
  }

  /**
   * What `__sort__` makes of a list of items when the `length` field holds
   * `n`: both loops, one after the other, over the first `n` positions.
   * With a negative `n` both ranges are empty and nothing moves.
   */
  function HeapSorted<T>(key: T -> int, s: seq<T>, n: int, start: Start): (r: seq<T>)
    requires n <= |s|
    ensures |r| == |s| && multiset(r) == multiset(s)
  {
    if n < 0 then s
    else
      var b := BuildDown(key, s, n, n / 2, 0, start);
      BuildPermutes(key, s, n, n / 2, 0, start);
      ExtractPermutes(key, b, n - 1, 1, start);
      ExtractDown(key, b, n - 1, 1, start)
  }

  /** Exchanging two positions keeps the same elements. */
  lemma SwapPermutes<T>(s: seq<T>, i: nat, j: nat)
    requires i < |s| && j < |s|
    ensures multiset(Swap(s, i, j)) == multiset(s)
  {
    if i != j {
      var t := s[i := s[j]];
      assert multiset(t) == multiset(s) - multiset{s[i]} + multiset{s[j]};
      assert multiset(t[j := s[i]]) == multiset(t) - multiset{s[j]} + multiset{s[i]};
    }
  }

  /** `__heapify__` only exchanges elements, so it keeps the same elements. */
  lemma {:induction false} SiftedPermutes<T>(key: T -> int, s: seq<T>, n: nat, i: nat, start: Start)
    requires n <= |s|
    ensures multiset(Sifted(key, s, n, i, start)) == multiset(s)
    decreases n - i
  {
    var j := Larger(key, s, n, i, start);
    if j != Initial(start, i) {
      SwapPermutes(s, i, j);
      SiftedPermutes(key, Swap(s, i, j), n, j, start);
    }
  }

  /** The first loop of `__sort__` keeps the same elements. */
  lemma {:induction false} BuildPermutes<T>(key: T -> int, s: seq<T>, n: nat, hi: int, lo: nat, start: Start)
    requires n <= |s|
    ensures multiset(BuildDown(key, s, n, hi, lo, start)) == multiset(s)
    decreases hi - lo
  {
    if lo < hi {
      BuildPermutes(key, s, n, hi, lo + 1, start);
      SiftedPermutes(key, BuildDown(key, s, n, hi, lo + 1, start), n, lo, start);
    }
  }

  /** The second loop of `__sort__` keeps the same elements. */
  lemma {:induction false} ExtractPermutes<T>(key: T -> int, s: seq<T>, hi: int, lo: nat, start: Start)
    requires hi < |s|
    ensures multiset(ExtractDown(key, s, hi, lo, start)) == multiset(s)
    decreases hi - lo
  {
    if lo <= hi {
      var t := ExtractDown(key, s, hi, lo + 1, start);
      ExtractPermutes(key, s, hi, lo + 1, start);
      SwapPermutes(t, 0, lo);
      SiftedPermutes(key, Swap(t, 0, lo), lo, 0, start);
    }
  }

  /** Python's `list.pop(index)`: a negative index counts from the end. */
  function PopIndex(len: nat, index: int): (r: Option<nat>)
    ensures r.Some? <==> -(len as int) <= index < len
    ensures r.Some? ==> r.value < len && (r.value == index || r.value == index + len)
  {
    if 0 <= index < len then Some(index)
    else if -(len as int) <= index < 0 then Some(index + len)
    else None
  }

  /** The list without position `k`. */
  function Without<T>(s: seq<T>, k: nat): (r: seq<T>)
    requires k < |s|
    ensures |r| == |s| - 1 && multiset(r) + multiset{s[k]} == multiset(s)
    ensures forall m :: 0 <= m < |r| ==> r[m] == (if m < k then s[m] else s[m + 1])
  {
    assert s == s[..k] + [s[k]] + s[k + 1..];
    s[..k] + s[k + 1..]
  }

  /** Exchanging the same two positions in the items and in their weights keeps them in step. */
  lemma SwapMirrors<T>(key: T -> int, items: seq<T>, weights: seq<int>, i: nat, j: nat)
    requires Mirrors(key, items, weights) && i < |items| && j < |items|
    ensures Mirrors(key, Swap(items, i, j), Swap(weights, i, j))
  {
  }

  /** One pass of the first loop of `__sort__`, at position `i`. */
  lemma BuildStep<T>(key: T -> int, s: seq<T>, hi: int, i: nat, next: int, t: seq<T>, n: nat, u: seq<T>, start: Start)
    requires i < hi && next == i + 1 && n <= |s|
    requires t == BuildDown(key, s, n, hi, next, start)
    requires u == Sifted(key, t, n, i, start)
    ensures u == BuildDown(key, s, n, hi, i, start)
  {
  }

  /** One pass of the second loop of `__sort__`, at position `i`. */
  lemma ExtractStep<T>(key: T -> int, s: seq<T>, hi: int, i: nat, next: int, t: seq<T>, u: seq<T>, start: Start)
    requires 0 < i <= hi < |s| && next == i + 1
    requires t == ExtractDown(key, s, hi, next, start)
    requires u == Sifted(key, Swap(t, 0, i), i, 0, start)
    ensures u == ExtractDown(key, s, hi, i, start)
  {
  }

  /**
   * Both loops of `__sort__` run to their ends make `HeapSorted`; `m` is
   * the heap size, `n` when it is not negative.
   */
  lemma SortFinished<T>(key: T -> int, s: seq<T>, n: int, m: nat, half: int, built: int, b: seq<T>, next: int, u: seq<T>, start: Start)
    requires n <= |s| && m == (if n < 0 then 0 else n) && half == m / 2
    requires built == 0 && b == BuildDown(key, s, m, half, built, start)
    requires next == (if n <= 0 then 0 else 1) && u == ExtractDown(key, b, n - 1, next, start)
    ensures u == HeapSorted(key, s, n, start)
  {
  }

  /**
   * Positions from `n` on are never touched by `__sort__` with `length`
   * equal to `n`: a stale `length` leaves the last items where they are.
   */
  lemma SortKeepsTail<T>(key: T -> int, s: seq<T>, n: int, start: Start)
    requires n <= |s|
    ensures forall m :: 0 <= m < |s| && n <= m ==> HeapSorted(key, s, n, start)[m] == s[m]
  {
    if n >= 0 {
      BuildKeepsTail(key, s, n, n / 2, 0, start);
      ExtractKeepsTail(key, BuildDown(key, s, n, n / 2, 0, start), n, n - 1, 1, start);
    }
  }

  lemma {:induction false} BuildKeepsTail<T>(key: T -> int, s: seq<T>, n: nat, hi: int, lo: nat, start: Start)
    requires n <= |s|
    ensures forall m :: n <= m < |s| ==> BuildDown(key, s, n, hi, lo, start)[m] == s[m]
    decreases hi - lo
  {
    if lo < hi {
      BuildKeepsTail(key, s, n, hi, lo + 1, start);
      SiftedKeepsTail(key, BuildDown(key, s, n, hi, lo + 1, start), n, lo, start);
    }
  }

  lemma {:induction false} ExtractKeepsTail<T>(key: T -> int, s: seq<T>, n: nat, hi: int, lo: nat, start: Start)
    requires hi < n <= |s|
    ensures forall m :: n <= m < |s| ==> ExtractDown(key, s, hi, lo, start)[m] == s[m]
    decreases hi - lo
  {
    if lo <= hi {
      var t := ExtractDown(key, s, hi, lo + 1, start);
      ExtractKeepsTail(key, s, n, hi, lo + 1, start);
      SiftedKeepsTail(key, Swap(t, 0, lo), lo, 0, start);
    }
  }

  /** A heap of at most one position is left as it is. */
  lemma ShortSortStill<T>(key: T -> int, s: seq<T>, n: int, start: Start)
    requires n <= 1 && n <= |s|
    ensures HeapSorted(key, s, n, start) == s
  {
    if n >= 0 {
      assert BuildDown(key, s, n, n / 2, 0, start) == s;
    }
  }

  /** Positions from `n` on are never touched by `__heapify__(n, i)`. */
  lemma {:induction false} SiftedKeepsTail<T>(key: T -> int, s: seq<T>, n: nat, i: nat, start: Start)
    requires n <= |s|
    ensures forall m :: n <= m < |s| ==> Sifted(key, s, n, i, start)[m] == s[m]
    decreases n - i
  {
    var j := Larger(key, s, n, i, start);
    if j != Initial(start, i) {
      SiftedKeepsTail(key, Swap(s, i, j), n, j, start);
    }
  }

  /** A weight bound on every position before `n` survives `__heapify__(n, i)`. */
  lemma {:induction false} SiftedBounded<T>(key: T -> int, s: seq<T>, n: nat, i: nat, start: Start, v: int)
    requires n <= |s|
    requires forall m :: 0 <= m < n ==> key(s[m]) <= v
    ensures forall m :: 0 <= m < n ==> key(Sifted(key, s, n, i, start)[m]) <= v
    decreases n - i
  {
    var j := Larger(key, s, n, i, start);
    if j != Initial(start, i) {
      SiftedBounded(key, Swap(s, i, j), n, j, start, v);
    }
  }

  /** Position `k` weighs at least as much as its children among the first `n` positions. */
  ghost predicate HeapAt<T>(key: T -> int, s: seq<T>, n: nat, k: nat)
    requires n <= |s|
  {
    (2 * k + 1 < n ==> key(s[k]) >= key(s[2 * k + 1])) &&
    (2 * k + 2 < n ==> key(s[k]) >= key(s[2 * k + 2]))
  }

  /** The first `n` positions are a max-heap at every position from `lo` on. */
  ghost predicate IsHeap<T>(key: T -> int, s: seq<T>, n: nat, lo: nat)
    requires n <= |s|
  {
    forall k :: lo <= k < n ==> HeapAt(key, s, n, k)
  }

  /**
   * The heap condition holds from `lo` on except at `j`, and the parent of
   * `j` (when it is from `lo` on) still outweighs the children of `j`.
   */
  ghost predicate HeapExcept<T>(key: T -> int, s: seq<T>, n: nat, lo: nat, j: nat)
    requires n <= |s|
  {
    (forall k :: lo <= k < n && k != j ==> HeapAt(key, s, n, k)) &&
    (0 < j && lo <= (j - 1) / 2 ==>
      (2 * j + 1 < n ==> key(s[(j - 1) / 2]) >= key(s[2 * j + 1])) &&
      (2 * j + 2 < n ==> key(s[(j - 1) / 2]) >= key(s[2 * j + 2])))
  }

  /** Lifting the heaviest child over `i` repairs `i` and moves the defect down to that child. */
  lemma SwapRepairs<T>(key: T -> int, s: seq<T>, n: nat, lo: nat, i: nat, j: nat)
    requires n <= |s| && lo <= i && HeapExcept(key, s, n, lo, i)
    requires j == Larger(key, s, n, i, FromI) && j != i
    ensures HeapExcept(key, Swap(s, i, j), n, lo, j)
  {
    var t := Swap(s, i, j);
    assert HeapAt(key, t, n, i);
    forall k | lo <= k < n && k != j
      ensures HeapAt(key, t, n, k)
    {
      if k != i {
        assert HeapAt(key, s, n, k);
        if 0 < i && k == (i - 1) / 2 {
          assert key(t[k]) >= key(t[i]);
        }
      }
    }
    assert HeapAt(key, s, n, j);
  }

  /** `__heapify__(n, i)` started at `i` turns a heap defective only at `i` into a heap. */
  lemma {:induction false} SiftMakesHeap<T>(key: T -> int, s: seq<T>, n: nat, lo: nat, i: nat)
    requires n <= |s| && lo <= i && HeapExcept(key, s, n, lo, i)
    ensures IsHeap(key, Sifted(key, s, n, i, FromI), n, lo)
    decreases n - i
  {
    var j := Larger(key, s, n, i, FromI);
    if j == i {
      assert HeapAt(key, s, n, i);
    } else {
      SwapRepairs(key, s, n, lo, i, j);
      SiftMakesHeap(key, Swap(s, i, j), n, lo, j);
    }
  }

  /** The root of a heap is its heaviest element. */
  lemma {:induction false} HeapTop<T>(key: T -> int, s: seq<T>, n: nat, k: nat)
    requires n <= |s| && IsHeap(key, s, n, 0) && k < n
    ensures key(s[0]) >= key(s[k])
    decreases k
  {
    if k > 0 {
      var p := (k - 1) / 2;
      HeapTop(key, s, n, p);
      assert HeapAt(key, s, n, p);
    }
  }

  /** With `i_new` started at `i`, the first loop of `__sort__` builds a heap. */
  lemma {:induction false} BuildMakesHeap<T>(key: T -> int, s: seq<T>, lo: nat)
    ensures IsHeap(key, BuildDown(key, s, |s|, |s| / 2, lo, FromI), |s|, lo)
    decreases |s| / 2 - lo
  {
    var n := |s|;
    if n / 2 <= lo {
      forall k | lo <= k < n
        ensures HeapAt(key, s, n, k)
      {
        assert 2 * k + 1 >= n;
      }
    } else {
      var t := BuildDown(key, s, n, n / 2, lo + 1, FromI);
      BuildMakesHeap(key, s, lo + 1);
      assert HeapExcept(key, t, n, lo, lo);
      SiftMakesHeap(key, t, n, lo, lo);
    }
  }

  /**
   * Where the second loop of `__sort__` stands before its pass at `lo - 1`:
   * the first `lo` positions are a heap, the rest is in ascending order,
   * and nothing in the heap outweighs position `lo`.
   */
  ghost predicate Stage<T>(key: T -> int, s: seq<T>, lo: nat)
    requires lo <= |s|
  {
    IsHeap(key, s, lo, 0) &&
    (forall a, b :: lo <= a < b < |s| ==> key(s[a]) <= key(s[b])) &&
    (lo < |s| ==> forall m :: 0 <= m < lo ==> key(s[m]) <= key(s[lo]))
  }

  /** One pass of the second loop, with `i_new` started at `i`, moves the stage down by one. */
  lemma ExtractPass<T>(key: T -> int, t: seq<T>, lo: nat)
    requires 1 <= lo < |t| && Stage(key, t, lo + 1)
    ensures Stage(key, Sifted(key, Swap(t, 0, lo), lo, 0, FromI), lo)
  {
    var e := Swap(t, 0, lo);
    var u := Sifted(key, e, lo, 0, FromI);
    forall k | 0 <= k < lo && k != 0
      ensures HeapAt(key, e, lo, k)
    {
      assert HeapAt(key, t, lo + 1, k);
    }
    assert HeapExcept(key, e, lo, 0, 0);
    SiftMakesHeap(key, e, lo, 0, 0);
    SiftedKeepsTail(key, e, lo, 0, FromI);
    forall m | 0 <= m < lo
      ensures key(e[m]) <= key(t[0])
    {
      if m == 0 {
        HeapTop(key, t, lo + 1, lo);
      } else {
        HeapTop(key, t, lo + 1, m);
      }
    }
    SiftedBounded(key, e, lo, 0, FromI, key(t[0]));
    assert u[lo] == t[0];
    forall a, b | lo <= a < b < |u|
      ensures key(u[a]) <= key(u[b])
    {
      if a == lo {
        assert key(t[0]) <= key(t[lo + 1]);
      }
    }
  }

  /** With `i_new` started at `i`, the passes of the second loop down to `lo` keep the stage. */
  lemma {:induction false} ExtractStages<T>(key: T -> int, b: seq<T>, lo: nat)
    requires 1 <= lo <= |b| && IsHeap(key, b, |b|, 0)
    ensures Stage(key, ExtractDown(key, b, |b| - 1, lo, FromI), lo)
    decreases |b| - lo
  {
    if lo < |b| {
      ExtractStages(key, b, lo + 1);
      ExtractPass(key, ExtractDown(key, b, |b| - 1, lo + 1, FromI), lo);
    }
  }

  /**
   * With `i_new` started at `i`, `__sort__` does what its docstring says:
   * the list ends in ascending order of weight, with the same elements.
   */
  lemma IntendedSorts<T>(key: T -> int, s: seq<T>)
    ensures multiset(HeapSorted(key, s, |s|, FromI)) == multiset(s)
    ensures forall a, b :: 0 <= a < b < |s| ==>
      key(HeapSorted(key, s, |s|, FromI)[a]) <= key(HeapSorted(key, s, |s|, FromI)[b])
  {
    var r := HeapSorted(key, s, |s|, FromI);
    BuildMakesHeap(key, s, 0);
    if |s| >= 1 {
      ExtractStages(key, BuildDown(key, s, |s|, |s| / 2, 0, FromI), 1);
      forall a, b | 0 <= a < b < |s|
        ensures key(r[a]) <= key(r[b])
      {
        if a == 0 && 1 < b {
          assert key(r[0]) <= key(r[1]);
        }
      }
    }
  }

  /** The identity weight: each item is its own weight, as with the default `key`. */
  ghost predicate Identity(key: int -> int) {
    forall x :: key(x) == x
  }

  /** Building the heap of 10, 1, 5, 8, 0 moves nothing. */
  lemma BuildNothing(key: int -> int, s: seq<int>)
    requires Identity(key) && s == [10, 1, 5, 8, 0]
    ensures BuildDown(key, s, 5, 2, 0, FromZero) == s
  {
    assert key(s[1]) == 1 && key(s[3]) == 8 && key(s[4]) == 0;
    assert Larger(key, s, 5, 1, FromZero) == 0;
    assert BuildDown(key, s, 5, 2, 1, FromZero) == s;
    assert key(s[0]) == 10 && key(s[1]) == 1 && key(s[2]) == 5;
    assert Larger(key, s, 5, 0, FromZero) == 0;
  }

  /** A sift that moves something continues from the child it moved to. */
  lemma SiftMoves<T>(key: T -> int, s: seq<T>, n: nat, i: nat, j: nat, start: Start)
    requires n <= |s| && j == Larger(key, s, n, i, start) && j != Initial(start, i)
    ensures Sifted(key, s, n, i, start) == Sifted(key, Swap(s, i, j), n, j, start)
  {
  }

  /** A sift that finds nothing heavier stops. */
  lemma SiftStops<T>(key: T -> int, s: seq<T>, n: nat, i: nat, start: Start)
    requires n <= |s| && Larger(key, s, n, i, start) == Initial(start, i)
    ensures Sifted(key, s, n, i, start) == s
  {
  }

  /** First extraction pass: 10 goes last, then 5 rises to the root. */
  lemma PassFour(key: int -> int, t: seq<int>, u: seq<int>)
    requires Identity(key) && t == [10, 1, 5, 8, 0] && u == [5, 1, 0, 8, 10]
    ensures u == Sifted(key, Swap(t, 0, 4), 4, 0, FromZero)
  {
    var e := t[0 := t[4]][4 := t[0]];
    assert e == [0, 1, 5, 8, 10];
    assert key(e[0]) == 0 && key(e[1]) == 1 && key(e[2]) == 5;
    SiftMoves(key, e, 4, 0, 2, FromZero);
    var f := e[0 := e[2]][2 := e[0]];
    assert f == u;
    SiftStops(key, f, 4, 2, FromZero);
  }

  /** Second pass: 5 and 8 exchange, and 8 stays at the root. */
  lemma PassThree(key: int -> int, t: seq<int>, u: seq<int>)
    requires Identity(key) && t == [5, 1, 0, 8, 10] && u == [8, 1, 0, 5, 10]
    ensures u == Sifted(key, Swap(t, 0, 3), 3, 0, FromZero)
  {
    var e := t[0 := t[3]][3 := t[0]];
    assert e == u;
    assert key(e[0]) == 8 && key(e[1]) == 1 && key(e[2]) == 0;
    SiftStops(key, e, 3, 0, FromZero);
  }

  /** Third pass: 8 goes to position 2, then 1 rises over 0. */
  lemma PassTwo(key: int -> int, t: seq<int>, u: seq<int>)
    requires Identity(key) && t == [8, 1, 0, 5, 10] && u == [1, 0, 8, 5, 10]
    ensures u == Sifted(key, Swap(t, 0, 2), 2, 0, FromZero)
  {
    var e := t[0 := t[2]][2 := t[0]];
    assert e == [0, 1, 8, 5, 10];
    assert key(e[0]) == 0 && key(e[1]) == 1;
    SiftMoves(key, e, 2, 0, 1, FromZero);
    var f := e[0 := e[1]][1 := e[0]];
    assert f == u;
    SiftStops(key, f, 2, 1, FromZero);
  }

  /** Last pass: 1 and 0 exchange. */
  lemma PassOne(key: int -> int, t: seq<int>, u: seq<int>)
    requires Identity(key) && t == [1, 0, 8, 5, 10] && u == [0, 1, 8, 5, 10]
    ensures u == Sifted(key, Swap(t, 0, 1), 1, 0, FromZero)
  {
    var e := t[0 := t[1]][1 := t[0]];
    assert e == u;
    SiftStops(key, e, 1, 0, FromZero);
  }

  /**
   * `__sort__` does not sort: with the weights 10, 1, 5, 8, 0 (each item its
   * own weight) the list ends as 0, 1, 8, 5, 10, with 8 before 5.
   */
  lemma NotSorted(key: int -> int, s: seq<int>)
    requires Identity(key) && s == [10, 1, 5, 8, 0]
    ensures HeapSorted(key, s, |s|, FromZero) == [0, 1, 8, 5, 10]
  {
    BuildNothing(key, s);
    var h4, h3, h2, h1 := [5, 1, 0, 8, 10], [8, 1, 0, 5, 10], [1, 0, 8, 5, 10], [0, 1, 8, 5, 10];
    PassFour(key, s, h4);
    ExtractStep(key, s, 4, 4, 5, s, h4, FromZero);
    PassThree(key, h4, h3);
    ExtractStep(key, s, 4, 3, 4, h4, h3, FromZero);
    PassTwo(key, h3, h2);
    ExtractStep(key, s, 4, 2, 3, h3, h2, FromZero);
    PassOne(key, h2, h1);
    ExtractStep(key, s, 4, 1, 2, h2, h1, FromZero);
  }

  class HeapBin<T> {
    /** The list itself. */
    var items: seq<T>
    /** `weights[k]` is the weight of `items[k]`. */
    var weights: seq<int>
    /**
     * The `length` field. Every operation moves it together with the list,
     * except a `shift` or `pop` on an empty list, which lowers it alone.
     */
    var length: int
    /** The `key` given at construction. */
    const key: T -> int

    /**
     * The bookkeeping every operation keeps: the weights mirror the items,
     * and `length` is never above the list's length.
     */
    ghost predicate Valid()
      reads this
    {
      length <= |items| && Mirrors(key, items, weights)
    }

    /** `length` equals `len(self)`, as the class means it to. */
    ghost predicate Synced()
      reads this
    {
      length == |items|
    }

    /**
     * `HeapBin(*items, key=key)`: the items, their weights, `length`, then
     * `__sort__`.
     */
    constructor (xs: seq<T>, key: T -> int)
      ensures Valid() && Synced() && this.key == key
      ensures items == HeapSorted(key, xs, |xs|, FromZero) && multiset(items) == multiset(xs)
    {
      this.key := key;
      new;
      items := xs;
      length := |xs|;
      weights := seq(|xs|, k requires 0 <= k < |xs| => key(xs[k]));
      Sort();
    }

    /**
     * `__heapify__(n, i)`: pick `i_new` as written (starting from 0), and
     * when it is not 0 exchange positions `i` and `i_new` in both lists and
     * continue from `i_new`.
     */
    method Heapify(n: nat, i: nat)
      requires Valid() && n <= |items|
      modifies this
      ensures Valid() && length == old(length)
      ensures items == Sifted(key, old(items), n, i, FromZero)
      decreases n - i
    {
      var iNew := 0;
      var left, right := 2 * i + 1, 2 * i + 2;
      if right < n && weights[i] < weights[right] {
        iNew := right;
      }
      if left < n && weights[iNew] < weights[left] {
        iNew := left;
      }
      assert iNew == Larger(key, items, n, i, FromZero);
      if iNew != 0 {
        SwapMirrors(key, items, weights, i, iNew);
        items, weights := Swap(items, i, iNew), Swap(weights, i, iNew);
        Heapify(n, iNew);
      }
    }

    /**
     * `__sort__`: heapify every parent position of the first `length`
     * positions from the last one down to the root, then repeatedly move
     * position 0 to the end of the shrinking heap and heapify what is left.
     * Both loops range over the `length` field, not over the list.
     */
    method Sort()
      requires Valid()
      modifies this
      ensures Valid() && length == old(length)
      ensures items == HeapSorted(key, old(items), length, FromZero)
    {
      ghost var s := items;
      var i := length / 2 - 1;
      ghost var m: nat := if length < 0 then 0 else length;
      ghost var half := m / 2;
      ghost var next: nat := if length < 0 then 0 else i + 1;
      while i >= 0
        invariant i <= length / 2 - 1 && (length >= 0 ==> -1 <= i && next == i + 1)
        invariant length < 0 ==> next == 0
        invariant Valid() && length == old(length)
        invariant items == BuildDown(key, s, m, half, next, FromZero)
        decreases i
      {
        ghost var t := items;
        Heapify(length, i);
        BuildStep(key, s, half, i, next, t, m, items, FromZero);
        next := i;
        i := i - 1;
      }
      ghost var b := items;
      ghost var built := next;
      ghost var hi := length - 1;
      i := length - 1;
      next := if length < 0 then 0 else i + 1;
      while i > 0
        invariant i <= length - 1 && (length >= 0 ==> -1 <= i && next == i + 1 && (length > 0 ==> i >= 0))
        invariant length < 0 ==> next == 0
        invariant Valid() && length == old(length)
        invariant items == ExtractDown(key, b, hi, next, FromZero)
        decreases i
      {
        ghost var t := items;
        SwapMirrors(key, items, weights, 0, i);
        items, weights := Swap(items, 0, i), Swap(weights, 0, i);
        Heapify(i, 0);
        ExtractStep(key, b, hi, i, next, t, items, FromZero);
        next := i;
        i := i - 1;
      }
      SortFinished(key, s, length, m, half, built, b, next, items, FromZero);
    }

    /**
     * `append(item)`: the item goes last, its weight last, `length` grows
     * by one, and the list is re-sorted over the new `length`. The elements
     * are the old ones plus exactly the new item.
     */
    method Append(item: T)
      requires Valid()
      modifies this
      ensures Valid() && length == old(length) + 1
      ensures items == HeapSorted(key, old(items) + [item], length, FromZero)
      ensures multiset(items) == multiset(old(items)) + multiset{item}
    {
      items := items + [item];
      weights := weights + [key(item)];
      length := length + 1;
      Sort();
    }

    /**
     * `remove(index)`: `list.pop` of that position (a negative index counts
     * from the end; outside the list `IndexError` is raised before anything
     * changes), the same for the weights, `length` down by one, then a
     * re-sort. The removed item is returned and nothing else is lost.
     */
    method Remove(index: int) returns (r: Result<T>)
      requires Valid()
      modifies this
      ensures Valid()
      ensures PopIndex(|old(items)|, index).None? ==>
        r == Err(IndexError) && items == old(items) && weights == old(weights) && length == old(length)
      ensures PopIndex(|old(items)|, index).Some? ==>
        var k := PopIndex(|old(items)|, index).value;
        r == Ok(old(items)[k]) && length == old(length) - 1 &&
        items == HeapSorted(key, Without(old(items), k), length, FromZero)
      ensures r.Ok? ==> multiset(items) + multiset{r.value} == multiset(old(items))
    {
      var k := PopIndex(|items|, index);
      if k.None? {
        return Err(IndexError);
      }
      var item := items[k.value];
      items := Without(items, k.value);
      weights := Without(weights, k.value);
      length := length - 1;
      Sort();
      r := Ok(item);
    }

    /**
     * `shift()`: `length` goes down by one first; then the first weight and
     * the first item are popped and the item returned. On an empty list
     * popping raises `IndexError` after `length` has already dropped, so
     * `length` falls below `len(self)` for good.
     */
    method Shift() returns (r: Result<T>)
      requires Valid()
      modifies this
      ensures Valid() && length == old(length) - 1
      ensures old(items) == [] ==> r == Err(IndexError) && items == [] && weights == []
      ensures old(items) != [] ==>
        r == Ok(old(items)[0]) && items == old(items)[1..] && weights == old(weights)[1..]
    {
      length := length - 1;
      if |weights| == 0 {
        return Err(IndexError);
      }
      weights := weights[1..];
      var item := items[0];
      items := items[1..];
      r := Ok(item);
    }

    /**
     * `shift` with `length` lowered only once the pop has succeeded: an
     * empty list raises `IndexError` and changes nothing, so `length`
     * keeps equal to `len(self)`.
     */
    method ShiftIntended() returns (r: Result<T>)
      requires Valid() && Synced()
      modifies this
      ensures Valid() && Synced()
      ensures old(items) == [] ==> r == Err(IndexError) && items == [] && length == old(length)
      ensures old(items) != [] ==>
        r == Ok(old(items)[0]) && items == old(items)[1..] && weights == old(weights)[1..]
    {
      if |weights| == 0 {
        return Err(IndexError);
      }
      weights := weights[1..];
      var item := items[0];
      items := items[1..];
      length := length - 1;
      r := Ok(item);
    }

    /**
     * `pop()`: as `shift`, at the other end: the last weight and item are
     * dropped and the item returned, with the same `IndexError` on an
     * empty list after `length` has dropped.
     */
    method Pop() returns (r: Result<T>)
      requires Valid()
      modifies this
      ensures Valid() && length == old(length) - 1
      ensures old(items) == [] ==> r == Err(IndexError) && items == [] && weights == []
      ensures old(items) != [] ==>
        r == Ok(old(items)[|old(items)| - 1]) &&
        items == old(items)[..|old(items)| - 1] && weights == old(weights)[..|old(weights)| - 1]
    {
      length := length - 1;
      if |weights| == 0 {
        return Err(IndexError);
      }
      weights := weights[..|weights| - 1];
      var item := items[|items| - 1];
      items := items[..|items| - 1];
      r := Ok(item);
    }

    /** `pop` with `length` lowered only once the pop has succeeded. */
    method PopIntended() returns (r: Result<T>)
      requires Valid() && Synced()
      modifies this
      ensures Valid() && Synced()
      ensures old(items) == [] ==> r == Err(IndexError) && items == [] && length == old(length)
      ensures old(items) != [] ==>
        r == Ok(old(items)[|old(items)| - 1]) &&
        items == old(items)[..|old(items)| - 1] && weights == old(weights)[..|old(weights)| - 1]
    {
      if |weights| == 0 {
        return Err(IndexError);
      }
      weights := weights[..|weights| - 1];
      var item := items[|items| - 1];
      items := items[..|items| - 1];
      length := length - 1;
      r := Ok(item);
    }
  }

  /**
   * `h = HeapBin()`, a `shift()` that fails on the empty heap, then
   * `append(2)` and `append(1)`: the re-sorts run over the stale `length`
   * (0, then 1), so the heap ends as 2, 1, out of order.
   */
  method StaleShift() returns (r: Result<int>, items: seq<int>, length: int)
    ensures r == Err(IndexError) && items == [2, 1] && length == 1
  {
    var h := new HeapBin<int>([], x => x);
    r := h.Shift();
    h.Append(2);
    ShortSortStill(h.key, [2], 0, FromZero);
    h.Append(1);
    ShortSortStill(h.key, [2, 1], 1, FromZero);
    items, length := h.items, h.length;
  }

  /** The same with a failing `pop()`: 2 then 1 are appended and left as 2, 1. */
  method StalePop() returns (r: Result<int>, items: seq<int>, length: int)
    ensures r == Err(IndexError) && items == [2, 1] && length == 1
  {
    var h := new HeapBin<int>([], x => x);
    r := h.Pop();
    h.Append(2);
    ShortSortStill(h.key, [2], 0, FromZero);
    h.Append(1);
    ShortSortStill(h.key, [2, 1], 1, FromZero);
    items, length := h.items, h.length;
  }

  /**
   * With `length` kept equal to `len(self)`, the same calls sort: after
   * `append(2)` and `append(1)` the re-sort runs over both items.
   */
  method SyncedShift() returns (r: Result<int>, items: seq<int>, length: int)
    ensures r == Err(IndexError) && items == [1, 2] && length == 2
  {
    var h := new HeapBin<int>([], x => x);
    r := h.ShiftIntended();
    h.Append(2);
    ShortSortStill(h.key, [2], 1, FromZero);
    h.Append(1);
    TwoSorted(h.key, [2, 1]);
    items, length := h.items, h.length;
  }

  /** With the identity weight, 2 and 1 are exchanged by `__sort__` over both. */
  lemma TwoSorted(key: int -> int, s: seq<int>)
    requires Identity(key) && s == [2, 1]
    ensures HeapSorted(key, s, 2, FromZero) == [1, 2]
  {
    assert key(s[0]) == 2 && key(s[1]) == 1;
    assert Larger(key, s, 2, 0, FromZero) == 0;
    assert BuildDown(key, s, 2, 1, 0, FromZero) == s;
    var e := s[0 := s[1]][1 := s[0]];
    assert e == [1, 2];
    SiftStops(key, e, 1, 0, FromZero);
    ExtractStep(key, s, 1, 1, 2, s, e, FromZero);
  }
}
