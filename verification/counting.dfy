/**
 * Counting occurrences into an insertion-ordered table, as huff.py's
 * `frequency_map` (a dict), pytree's `huff_tree` (a defaultdict) and
 * huff.mjs's `occurence` (a Map) all do: one entry per distinct item, in the
 * order the items first appear, holding how often the item occurs.
 */
module Counting {

  /** How often `x` occurs in `xs`. */
  function Count<T(==)>(xs: seq<T>, x: T): nat {
    if xs == [] then 0
    else Count(xs[..|xs| - 1], x) + (if xs[|xs| - 1] == x then 1 else 0)
  }

  /** The distinct items of `xs`, in the order they first appear. */
  function Firsts<T(==)>(xs: seq<T>): seq<T> {
    if xs == [] then []
    else
      var init := xs[..|xs| - 1];
      if xs[|xs| - 1] in init then Firsts(init) else Firsts(init) + [xs[|xs| - 1]]
  }

  /** The table a counting pass over `xs` should produce. */
  function Entries<T(==)>(xs: seq<T>): (es: seq<(T, nat)>)
    ensures |es| == |Firsts(xs)|
  {
    var ks := Firsts(xs);
    seq(|ks|, i requires 0 <= i < |ks| => (ks[i], Count(xs, ks[i])))
  }

  function Keys<T>(es: seq<(T, nat)>): (ks: seq<T>)
    ensures |ks| == |es| && forall i :: 0 <= i < |es| ==> ks[i] == es[i].0
  {
    seq(|es|, i requires 0 <= i < |es| => es[i].0)
  }

  function SumCounts<T>(es: seq<(T, nat)>): nat {
    if es == [] then 0 else SumCounts(es[..|es| - 1]) + es[|es| - 1].1
  }

  /** The first appearances are exactly the items, each once. */
  lemma {:induction false} FirstsAreDistinctItems<T>(xs: seq<T>)
    ensures forall x :: x in Firsts(xs) <==> x in xs
    ensures forall i, j :: 0 <= i < j < |Firsts(xs)| ==> Firsts(xs)[i] != Firsts(xs)[j]
  {
    if xs != [] {
      var init := xs[..|xs| - 1];
      FirstsAreDistinctItems(init);
      assert xs == init + [xs[|xs| - 1]];
    }
  }

  /** An item that occurs has a positive count; every count is at least one. */
  lemma {:induction false} CountPositive<T>(xs: seq<T>, x: T)
    ensures Count(xs, x) > 0 <==> x in xs
  {
    if xs != [] {
      var init := xs[..|xs| - 1];
      CountPositive(init, x);
      assert xs == init + [xs[|xs| - 1]];
    }
  }

  lemma {:induction false} SumCountsBump<T>(es: seq<(T, nat)>, j: nat, x: T)
    requires j < |es|
    ensures SumCounts(es[j := (x, es[j].1 + 1)]) == SumCounts(es) + 1
  {
    var n := |es| - 1;
    if j < n {
      assert es[j := (x, es[j].1 + 1)][..n] == es[..n][j := (x, es[j].1 + 1)];
      SumCountsBump(es[..n], j, x);
    } else {
      assert es[j := (x, es[j].1 + 1)][..n] == es[..n];
    }
  }

  /** Appending an item that already occurs bumps its entry by one. */
  lemma EntriesSnocSeen<T>(xs: seq<T>, x: T, j: nat)
    requires j < |Firsts(xs)| && Firsts(xs)[j] == x
    ensures j < |Entries(xs)| && Entries(xs + [x]) == Entries(xs)[j := (x, Entries(xs)[j].1 + 1)]
  {
    var ys := xs + [x];
    assert ys[..|ys| - 1] == xs;
    FirstsAreDistinctItems(xs);
    assert Firsts(ys) == Firsts(xs);
    var a, b := Entries(ys), Entries(xs)[j := (x, Entries(xs)[j].1 + 1)];
    forall i | 0 <= i < |a| ensures a[i] == b[i] {
      assert Count(ys, Firsts(xs)[i]) == Count(xs, Firsts(xs)[i]) + (if Firsts(xs)[i] == x then 1 else 0);
    }
  }

  /** Appending an item that does not occur yet adds an entry with count 1. */
  lemma EntriesSnocNew<T>(xs: seq<T>, x: T)
    requires x !in xs
    ensures Entries(xs + [x]) == Entries(xs) + [(x, 1)]
  {
    var ys := xs + [x];
    assert ys[..|ys| - 1] == xs;
    FirstsAreDistinctItems(xs);
    CountPositive(xs, x);
    assert Firsts(ys) == Firsts(xs) + [x];
    var a, b := Entries(ys), Entries(xs) + [(x, 1)];
    forall i | 0 <= i < |a| ensures a[i] == b[i] {
      assert Count(ys, Firsts(ys)[i]) == Count(xs, Firsts(ys)[i]) + (if Firsts(ys)[i] == x then 1 else 0);
    }
  }

  /** The counts add up to the length of the input. */
  lemma {:induction false} CountsSumToLength<T>(xs: seq<T>)
    ensures SumCounts(Entries(xs)) == |xs|
  {
    if xs != [] {
      var init, x := xs[..|xs| - 1], xs[|xs| - 1];
      CountsSumToLength(init);
      assert xs == init + [x];
      FirstsAreDistinctItems(init);
      if x in init {
        var j :| 0 <= j < |Firsts(init)| && Firsts(init)[j] == x;
        EntriesSnocSeen(init, x, j);
        SumCountsBump(Entries(init), j, x);
      } else {
        EntriesSnocNew(init, x);
        assert Entries(xs)[..|Entries(xs)| - 1] == Entries(init);
      }
    }
  }

  /** The index of the entry whose key is `x`, if there is one (a dictionary lookup). */
  function Find<T(==)>(es: seq<(T, nat)>, x: T): (r: int)
    ensures -1 <= r < |es|
    ensures r >= 0 ==> es[r].0 == x
    ensures r < 0 ==> forall i :: 0 <= i < |es| ==> es[i].0 != x
  {
    if es == [] then -1
    else if es[|es| - 1].0 == x then |es| - 1
    else Find(es[..|es| - 1], x)
  }

  /**
   * The counting loop: for each item, add one to its entry if it has one,
   * otherwise insert it with count 1. The table that comes out lists every
   * distinct item once, in order of first appearance, with its exact count.
   */
  method Tally<T(==)>(xs: seq<T>) returns (freq: seq<(T, nat)>)
    ensures freq == Entries(xs)
    ensures Keys(freq) == Firsts(xs)
    ensures forall i :: 0 <= i < |freq| ==> freq[i].1 == Count(xs, freq[i].0) && freq[i].1 > 0
  {
    freq := [];
    var n := 0;
    while n < |xs|
      invariant n <= |xs| && freq == Entries(xs[..n])
    {
      var x := xs[n];
      assert xs[..n + 1] == xs[..n] + [x];
      FirstsAreDistinctItems(xs[..n]);
      var j := Find(freq, x);
      if j >= 0 {
        EntriesSnocSeen(xs[..n], x, j);
        freq := freq[j := (x, freq[j].1 + 1)];
      } else {
        assert x !in Firsts(xs[..n]) by {
          forall k | 0 <= k < |freq| ensures Firsts(xs[..n])[k] != x {
            assert freq[k].0 == Firsts(xs[..n])[k];
          }
        }
        EntriesSnocNew(xs[..n], x);
        freq := freq + [(x, 1)];
      }
      n := n + 1;
    }
    assert xs[..n] == xs;
    forall i | 0 <= i < |freq| ensures freq[i].1 > 0 {
      FirstsAreDistinctItems(xs);
      CountPositive(xs, freq[i].0);
    }
  }
}
