/**
 * The Huffman merge loop of huff.py's and pytree's `huff_tree`, over a
 * `heapq` heap. The heap is a list of parts; `heappop` removes a lightest
 * part, `heappushpop` pushes a part and pops a lightest one. Which of
 * several equally light parts comes out is up to `heapq`, so the model lets
 * it be any of them.
 */
module Greedy {
  import opened BinTree
  import opened Counting
  import opened CodeTable

  // ---------------------------------------------------------------- lists of parts

  /** The total weight of a list of parts. */
  function SumW<T>(s: seq<Tree<T>>): int {
    if s == [] then 0 else SumW(s[..|s| - 1]) + s[|s| - 1].weight
  }

  /** The leaves of a list of parts, part after part. */
  function AllLeaves<T>(s: seq<Tree<T>>): seq<(int, T)> {
    if s == [] then [] else AllLeaves(s[..|s| - 1]) + Leaves(s[|s| - 1])
  }

  lemma {:induction false} ConcatParts<T>(a: seq<Tree<T>>, b: seq<Tree<T>>)
    ensures SumW(a + b) == SumW(a) + SumW(b)
    ensures AllLeaves(a + b) == AllLeaves(a) + AllLeaves(b)
    decreases |b|
  {
    if b == [] {
      assert a + b == a;
    } else {
      assert (a + b)[..|a + b| - 1] == a + b[..|b| - 1];
      ConcatParts(a, b[..|b| - 1]);
    }
  }

  /** The list without its part at `i`. */
  function Without<T>(s: seq<Tree<T>>, i: nat): (r: seq<Tree<T>>)
    requires i < |s|
    ensures |r| == |s| - 1
    ensures forall j :: 0 <= j < |r| ==> r[j] == s[if j < i then j else j + 1]
  {
    s[..i] + s[i + 1..]
  }

  lemma SplitAt<T>(s: seq<Tree<T>>, i: nat)
    requires i < |s|
    ensures s == s[..i] + [s[i]] + s[i + 1..]
    ensures SumW([s[i]]) == s[i].weight && AllLeaves([s[i]]) == Leaves(s[i])
  {
    assert [s[i]][..0] == [];
  }

  lemma RemoveWeight<T>(s: seq<Tree<T>>, i: nat)
    requires i < |s|
    ensures SumW(s) == SumW(Without(s, i)) + s[i].weight
  {
    SplitAt(s, i);
    ConcatParts(s[..i] + [s[i]], s[i + 1..]);
    ConcatParts(s[..i], [s[i]]);
    ConcatParts(s[..i], s[i + 1..]);
  }

  lemma RemoveLeaves<T>(s: seq<Tree<T>>, i: nat)
    requires i < |s|
    ensures multiset(AllLeaves(s)) == multiset(AllLeaves(Without(s, i))) + multiset(Leaves(s[i]))
  {
    SplitAt(s, i);
    ConcatParts(s[..i] + [s[i]], s[i + 1..]);
    ConcatParts(s[..i], [s[i]]);
    ConcatParts(s[..i], s[i + 1..]);
  }

  lemma RemovePart<T>(s: seq<Tree<T>>, i: nat)
    requires i < |s|
    ensures multiset(s) == multiset(Without(s, i)) + multiset{s[i]}
  {
    SplitAt(s, i);
  }

  lemma PushWeight<T>(s: seq<Tree<T>>, item: Tree<T>)
    ensures SumW(s + [item]) == SumW(s) + item.weight
  {
    ConcatParts(s, [item]);
    assert SumW([item]) == item.weight;
  }

  lemma PushLeaves<T>(s: seq<Tree<T>>, item: Tree<T>)
    ensures multiset(AllLeaves(s + [item])) == multiset(AllLeaves(s)) + multiset(Leaves(item))
  {
    ConcatParts(s, [item]);
    assert AllLeaves([item]) == Leaves(item);
  }

  // ---------------------------------------------------------------- leaves of a frequency table

  /** The leaves `Leaf(v, k)` for the table's entries `(k, v)`, in table order. */
  function LeafParts<T>(freq: seq<(T, nat)>): (parts: seq<Tree<T>>)
    ensures |parts| == |freq|
    ensures forall i :: 0 <= i < |freq| ==> parts[i] == Leaf(freq[i].1, freq[i].0)
  {
    seq(|freq|, i requires 0 <= i < |freq| => Leaf(freq[i].1, freq[i].0))
  }

  /** The table's entries as the (weight, value) pairs of their leaves. */
  function Swapped<T>(freq: seq<(T, nat)>): (ls: seq<(int, T)>)
    ensures |ls| == |freq| && forall i :: 0 <= i < |freq| ==> ls[i] == (freq[i].1 as int, freq[i].0)
  {
    seq(|freq|, i requires 0 <= i < |freq| => (freq[i].1 as int, freq[i].0))
  }

  /** The leaves made from a table weigh its counts together and hold its entries. */
  lemma {:induction false} LeafPartsMass<T>(freq: seq<(T, nat)>)
    ensures SumW(LeafParts(freq)) == SumCounts(freq)
    ensures AllLeaves(LeafParts(freq)) == Swapped(freq)
  {
    if freq != [] {
      var n := |freq| - 1;
      assert LeafParts(freq)[..n] == LeafParts(freq[..n]);
      assert Swapped(freq) == Swapped(freq[..n]) + [(freq[n].1 as int, freq[n].0)];
      LeafPartsMass(freq[..n]);
    }
  }

  /** Two equal items at different places are counted at least twice. */
  lemma TwiceCounted<X>(s: seq<X>, i: nat, j: nat)
    requires i < j < |s|
    ensures s[i] == s[j] ==> multiset(s)[s[i]] >= 2
  {
    assert s == s[..j] + [s[j]] + s[j + 1..];
    assert s[i] in multiset(s[..j]);
  }

  /** Pairs whose second components differ are each counted at most once. */
  lemma {:induction false} OnceCounted<T>(ls: seq<(int, T)>, x: (int, T))
    requires forall i, j :: 0 <= i < j < |ls| ==> ls[i].1 != ls[j].1
    ensures multiset(ls)[x] <= 1
  {
    if ls != [] {
      var n := |ls| - 1;
      OnceCounted(ls[..n], x);
      assert ls == ls[..n] + [ls[n]];
      if ls[n] == x {
        forall k | 0 <= k < n ensures ls[..n][k] != x {
          assert ls[k].1 != ls[n].1;
        }
      }
    }
  }

  /** Two leaves of a tree that holds the entries of a table with distinct keys have different values. */
  lemma LeafPairDistinct<T>(t: Tree<T>, freq: seq<(T, nat)>, i: nat, j: nat)
    requires multiset(Leaves(t)) == multiset(Swapped(freq))
    requires forall a, b :: 0 <= a < b < |freq| ==> freq[a].0 != freq[b].0
    requires i < |Leaves(t)| && j < |Leaves(t)| && i != j
    ensures Leaves(t)[i].1 != Leaves(t)[j].1
  {
    var ls, sw := Leaves(t), Swapped(freq);
    if ls[i].1 == ls[j].1 {
      assert ls[i] in multiset(sw) && ls[j] in multiset(sw);
      var a :| 0 <= a < |sw| && sw[a] == ls[i];
      var b :| 0 <= b < |sw| && sw[b] == ls[j];
      assert forall p, q :: 0 <= p < q < |sw| ==> sw[p].1 != sw[q].1;
      assert ls[i] == ls[j];
      OnceCounted(sw, ls[i]);
      if i < j {
        TwiceCounted(ls, i, j);
      } else {
        TwiceCounted(ls, j, i);
      }
      assert false;
    }
  }

  /** Every key of the table is the value of a leaf, so it has a code. */
  lemma KeyHasCode<T>(t: Tree<T>, freq: seq<(T, nat)>, i: nat)
    requires multiset(Leaves(t)) == multiset(Swapped(freq)) && i < |freq|
    ensures freq[i].0 in EncodeMap(CodeCalls(t, ""))
  {
    var ls, sw := Leaves(t), Swapped(freq);
    assert sw[i] in multiset(ls);
    var j :| 0 <= j < |ls| && ls[j] == sw[i];
    EncodeMapKeys(CodeCalls(t, ""), freq[i].0);
  }

  /**
   * A tree holding exactly the entries of a table with distinct keys has
   * distinct leaf values, and every key of the table has a code in it.
   */
  lemma EntryLeaves<T>(t: Tree<T>, freq: seq<(T, nat)>)
    requires multiset(Leaves(t)) == multiset(Swapped(freq))
    requires forall a, b :: 0 <= a < b < |freq| ==> freq[a].0 != freq[b].0
    ensures DistinctLeafValues(t)
    ensures forall i :: 0 <= i < |freq| ==> freq[i].0 in EncodeMap(CodeCalls(t, ""))
  {
    forall i, j | 0 <= i < |Leaves(t)| && 0 <= j < |Leaves(t)| && i != j
      ensures Leaves(t)[i].1 != Leaves(t)[j].1
    {
      LeafPairDistinct(t, freq, i, j);
    }
    forall i | 0 <= i < |freq| ensures freq[i].0 in EncodeMap(CodeCalls(t, "")) {
      KeyHasCode(t, freq, i);
    }
  }

  // ---------------------------------------------------------------- greedy runs

  /** `x` is in the bag and no part of the bag is lighter. */
  ghost predicate Lightest<T>(x: Tree<T>, bag: multiset<Tree<T>>) {
    x in bag && forall y :: y in bag ==> x.weight <= y.weight
  }

  /** One merge: the two parts taken out, in the order they become left and right. */
  datatype Merge<T> = Merge(a: Tree<T>, b: Tree<T>)

  /** The bag after a sequence of merges: each replaces its two parts by their sum. */
  ghost function After<T>(bag: multiset<Tree<T>>, run: seq<Merge<T>>): multiset<Tree<T>> {
    if run == [] then bag
    else
      var m := run[|run| - 1];
      After(bag, run[..|run| - 1]) - multiset{m.a} - multiset{m.b} + multiset{Add(m.a, m.b)}
  }

  /**
   * Every merge of the run takes a lightest part of the bag at that moment,
   * then a lightest part of what remains: the Huffman rule.
   */
  ghost predicate GreedyRun<T>(bag: multiset<Tree<T>>, run: seq<Merge<T>>) {
    run == [] ||
    var before, m := After(bag, run[..|run| - 1]), run[|run| - 1];
    GreedyRun(bag, run[..|run| - 1]) && Lightest(m.a, before) && Lightest(m.b, before - multiset{m.a})
  }

  lemma GreedySnoc<T>(bag: multiset<Tree<T>>, run: seq<Merge<T>>, m: Merge<T>)
    requires GreedyRun(bag, run)
    requires Lightest(m.a, After(bag, run)) && Lightest(m.b, After(bag, run) - multiset{m.a})
    ensures GreedyRun(bag, run + [m])
    ensures After(bag, run + [m]) == After(bag, run) - multiset{m.a} - multiset{m.b} + multiset{Add(m.a, m.b)}
  {
    assert (run + [m])[..|run|] == run;
  }

  /** A part no heavier than any part of a list is a lightest part of the list's bag with it. */
  lemma LightestOfList<T>(x: Tree<T>, s: seq<Tree<T>>)
    requires forall j :: 0 <= j < |s| ==> x.weight <= s[j].weight
    ensures Lightest(x, multiset(s) + multiset{x})
  {
    forall y | y in multiset(s) + multiset{x} ensures x.weight <= y.weight {
      if y in multiset(s) {
        var j :| 0 <= j < |s| && s[j] == y;
      }
    }
  }

  // ---------------------------------------------------------------- heapq

  lemma LightestIndex<T>(s: seq<Tree<T>>) returns (i: nat)
    requires s != []
    ensures i < |s| && forall j :: 0 <= j < |s| ==> s[i].weight <= s[j].weight
  {
    if |s| == 1 {
      i := 0;
    } else {
      var k := LightestIndex(s[1..]);
      i := if s[0].weight <= s[k + 1].weight then 0 else k + 1;
      forall j | 0 <= j < |s| ensures s[i].weight <= s[j].weight {
        if j > 0 { assert s[j] == s[1..][j - 1]; }
      }
    }
  }

  /** `heappop`: take out some lightest part (the one at `i`). */
  method PopMin<T>(heap: seq<Tree<T>>) returns (x: Tree<T>, rest: seq<Tree<T>>, ghost i: nat)
    requires heap != []
    ensures i < |heap| && x == heap[i] && rest == Without(heap, i)
    ensures forall j :: 0 <= j < |heap| ==> x.weight <= heap[j].weight
  {
    ghost var w := LightestIndex(heap);
    var k :| 0 <= k < |heap| && forall j :: 0 <= j < |heap| ==> heap[k].weight <= heap[j].weight;
    x, rest, i := heap[k], heap[..k] + heap[k + 1..], k;
  }

  /**
   * `heappushpop`: when some part of the heap is strictly lighter than the
   * new one, push the new one and pop some lightest part (the one at `i`);
   * otherwise hand the new part straight back (`i` is -1). Either way the part
   * handed back weighs no more than the new one or anything left in the heap.
   */
  method PushPop<T>(heap: seq<Tree<T>>, item: Tree<T>) returns (x: Tree<T>, rest: seq<Tree<T>>, ghost i: int)
    ensures -1 <= i < |heap|
    ensures i < 0 ==> x == item && rest == heap
    ensures i >= 0 ==> x == heap[i] && rest == Without(heap, i) + [item]
    ensures forall j :: 0 <= j < |rest| ==> x.weight <= rest[j].weight
    ensures x.weight <= item.weight
  {
    if exists j :: 0 <= j < |heap| && heap[j].weight < item.weight {
      var others;
      x, others, i := PopMin(heap);
      rest := others + [item];
    } else {
      x, rest, i := item, heap, -1;
    }
  }

  // ---------------------------------------------------------------- the loop

  /** The bag `{left} + heap` is what the greedy merges so far left of the parts, `left` a lightest of it. */
  ghost predicate BagState<T>(parts: seq<Tree<T>>, run: seq<Merge<T>>, left: Tree<T>, heap: seq<Tree<T>>) {
    GreedyRun(multiset(parts), run) && After(multiset(parts), run) == multiset(heap) + multiset{left} &&
    forall j :: 0 <= j < |heap| ==> left.weight <= heap[j].weight
  }

  /** `left` and the heap weigh what the parts weigh. */
  ghost predicate MassState<T>(parts: seq<Tree<T>>, left: Tree<T>, heap: seq<Tree<T>>) {
    left.weight + SumW(heap) == SumW(parts)
  }

  /** `left` and the heap hold the parts' leaves. */
  ghost predicate LeafState<T>(parts: seq<Tree<T>>, left: Tree<T>, heap: seq<Tree<T>>) {
    multiset(Leaves(left)) + multiset(AllLeaves(heap)) == multiset(AllLeaves(parts))
  }

  /** Every part of `left` and the heap is well weighted. */
  ghost predicate WeightedState<T>(left: Tree<T>, heap: seq<Tree<T>>) {
    WellWeighted(left) && forall j :: 0 <= j < |heap| ==> WellWeighted(heap[j])
  }

  lemma StartBag<T>(parts: seq<Tree<T>>, i: nat)
    requires i < |parts| && forall j :: 0 <= j < |parts| ==> parts[i].weight <= parts[j].weight
    ensures BagState(parts, [], parts[i], Without(parts, i))
  {
    RemovePart(parts, i);
  }

  lemma StartMass<T>(parts: seq<Tree<T>>, i: nat)
    requires i < |parts|
    ensures MassState(parts, parts[i], Without(parts, i)) && LeafState(parts, parts[i], Without(parts, i))
  {
    RemoveWeight(parts, i);
    RemoveLeaves(parts, i);
  }

  lemma StartWeighted<T>(parts: seq<Tree<T>>, i: nat)
    requires i < |parts| && forall j :: 0 <= j < |parts| ==> WellWeighted(parts[j])
    ensures WeightedState(parts[i], Without(parts, i))
  {
  }

  /** `left` is a lightest part of the bag, `heap[i]` a lightest part of what is left without `left`. */
  lemma MergeChoice<T>(left: Tree<T>, heap: seq<Tree<T>>, i: nat)
    requires forall j :: 0 <= j < |heap| ==> left.weight <= heap[j].weight
    requires i < |heap| && forall j :: 0 <= j < |heap| ==> heap[i].weight <= heap[j].weight
    ensures Lightest(left, multiset(heap) + multiset{left})
    ensures Lightest(heap[i], multiset(heap))
    ensures multiset(heap) == multiset(Without(heap, i)) + multiset{heap[i]}
  {
    LightestOfList(left, heap);
    RemovePart(heap, i);
    LightestOfList(heap[i], Without(heap, i));
  }

  /** Taking `a` and `b` out of a bag that holds them both and putting `n` in. */
  lemma SwapOut<T>(bag: multiset<Tree<T>>, a: Tree<T>, b: Tree<T>, n: Tree<T>, w: multiset<Tree<T>>)
    requires bag == w + multiset{b} + multiset{a}
    ensures bag - multiset{a} == w + multiset{b}
    ensures bag - multiset{a} - multiset{b} + multiset{n} == w + multiset{n}
  {
  }

  /** The merge of `left` with the lightest heap part `heap[i]` is a greedy step. */
  lemma StepMerge<T>(parts: seq<Tree<T>>, run: seq<Merge<T>>, left: Tree<T>, heap: seq<Tree<T>>, i: nat)
    requires BagState(parts, run, left, heap)
    requires i < |heap| && forall j :: 0 <= j < |heap| ==> heap[i].weight <= heap[j].weight
    ensures GreedyRun(multiset(parts), run + [Merge(left, heap[i])])
    ensures After(multiset(parts), run + [Merge(left, heap[i])]) == multiset(Without(heap, i)) + multiset{Add(left, heap[i])}
  {
    var bag, b := After(multiset(parts), run), heap[i];
    MergeChoice(left, heap, i);
    SwapOut(bag, left, b, Add(left, b), multiset(Without(heap, i)));
    GreedySnoc(multiset(parts), run, Merge(left, b));
  }

  /** The push-pop after a merge leaves the bag as the merge left it. */
  lemma StepPushPop<T>(bag: multiset<Tree<T>>, others: seq<Tree<T>>, node: Tree<T>, k: int,
                       left': Tree<T>, heap': seq<Tree<T>>)
    requires bag == multiset(others) + multiset{node}
    requires -1 <= k < |others|
    requires k < 0 ==> left' == node && heap' == others
    requires k >= 0 ==> left' == others[k] && heap' == Without(others, k) + [node]
    ensures bag == multiset(heap') + multiset{left'}
  {
    if k >= 0 {
      RemovePart(others, k);
    }
  }

  lemma StepMass<T>(parts: seq<Tree<T>>, left: Tree<T>, heap: seq<Tree<T>>, i: nat, k: int,
                    left': Tree<T>, heap': seq<Tree<T>>)
    requires MassState(parts, left, heap) && LeafState(parts, left, heap) && i < |heap|
    requires -1 <= k < |heap| - 1
    requires k < 0 ==> left' == Add(left, heap[i]) && heap' == Without(heap, i)
    requires k >= 0 ==> left' == Without(heap, i)[k] && heap' == Without(Without(heap, i), k) + [Add(left, heap[i])]
    ensures MassState(parts, left', heap') && LeafState(parts, left', heap')
  {
    StepSum(parts, left, heap, i, k, left', heap');
    StepLeaves(parts, left, heap, i, k, left', heap');
  }

  lemma StepSum<T>(parts: seq<Tree<T>>, left: Tree<T>, heap: seq<Tree<T>>, i: nat, k: int,
                   left': Tree<T>, heap': seq<Tree<T>>)
    requires MassState(parts, left, heap) && i < |heap|
    requires -1 <= k < |heap| - 1
    requires k < 0 ==> left' == Add(left, heap[i]) && heap' == Without(heap, i)
    requires k >= 0 ==> left' == Without(heap, i)[k] && heap' == Without(Without(heap, i), k) + [Add(left, heap[i])]
    ensures MassState(parts, left', heap')
  {
    var others, node := Without(heap, i), Add(left, heap[i]);
    RemoveWeight(heap, i);
    if k >= 0 {
      RemoveWeight(others, k);
      PushWeight(Without(others, k), node);
    }
  }

  lemma StepLeaves<T>(parts: seq<Tree<T>>, left: Tree<T>, heap: seq<Tree<T>>, i: nat, k: int,
                      left': Tree<T>, heap': seq<Tree<T>>)
    requires LeafState(parts, left, heap) && i < |heap|
    requires -1 <= k < |heap| - 1
    requires k < 0 ==> left' == Add(left, heap[i]) && heap' == Without(heap, i)
    requires k >= 0 ==> left' == Without(heap, i)[k] && heap' == Without(Without(heap, i), k) + [Add(left, heap[i])]
    ensures LeafState(parts, left', heap')
  {
    var others, node := Without(heap, i), Add(left, heap[i]);
    var a, x := multiset(Leaves(left)), multiset(Leaves(heap[i]));
    var o := multiset(AllLeaves(others));
    RemoveLeaves(heap, i);
    assert multiset(Leaves(node)) == a + x;
    if k >= 0 {
      var rest := Without(others, k);
      RemoveLeaves(others, k);
      PushLeaves(rest, node);
      SwapBags(a, x, o, multiset(Leaves(others[k])), multiset(AllLeaves(rest)), multiset(AllLeaves(parts)));
    } else {
      SwapBags(a, x, o, multiset{}, o, multiset(AllLeaves(parts)));
    }
  }

  /** The bag arithmetic of one merge: `a` and `x` join, `y` leaves the rest `r` of `o`. */
  lemma SwapBags<T>(a: multiset<T>, x: multiset<T>, o: multiset<T>, y: multiset<T>, r: multiset<T>, p: multiset<T>)
    requires a + (o + x) == p && o == r + y
    ensures y + (r + (a + x)) == p && (a + x) + o == p
  {
  }

  lemma StepWeighted<T>(left: Tree<T>, heap: seq<Tree<T>>, i: nat, k: int, left': Tree<T>, heap': seq<Tree<T>>)
    requires WeightedState(left, heap) && i < |heap|
    requires -1 <= k < |heap| - 1
    requires k < 0 ==> left' == Add(left, heap[i]) && heap' == Without(heap, i)
    requires k >= 0 ==> left' == Without(heap, i)[k] && heap' == Without(Without(heap, i), k) + [Add(left, heap[i])]
    ensures WeightedState(left', heap')
  {
  }

  /** The last merge: `left` with the one part the heap still holds. */
  lemma LastMerge<T>(parts: seq<Tree<T>>, run: seq<Merge<T>>, left: Tree<T>, heap: seq<Tree<T>>)
    requires BagState(parts, run, left, heap) && |heap| == 1
    ensures GreedyRun(multiset(parts), run + [Merge(left, heap[0])])
    ensures After(multiset(parts), run + [Merge(left, heap[0])]) == multiset{Add(left, heap[0])}
  {
    StepMerge(parts, run, left, heap, 0);
  }

  lemma LastMass<T>(parts: seq<Tree<T>>, left: Tree<T>, heap: seq<Tree<T>>)
    requires MassState(parts, left, heap) && LeafState(parts, left, heap) && |heap| == 1
    ensures Add(left, heap[0]).weight == SumW(parts)
    ensures multiset(Leaves(Add(left, heap[0]))) == multiset(AllLeaves(parts))
  {
    assert heap[..|heap| - 1] == [];
    assert SumW(heap) == heap[0].weight;
    assert AllLeaves(heap) == Leaves(heap[0]);
  }

  /**
   * The merge loop of `huff_tree`: pop a lightest part as `left`; then, once
   * per remaining part, pop the next lightest, add it to the right of
   * `left`, and push-pop the sum, keeping the lightest part as `left`; at
   * last add the single part left in the heap. The result is one node holding
   * every leaf of the parts once, weighing what they weigh together, built
   * by `|parts| - 1` greedy merges.
   */
  method HuffMerge<T>(parts: seq<Tree<T>>) returns (root: Tree<T>, ghost run: seq<Merge<T>>)
    requires |parts| >= 2
    requires forall k :: 0 <= k < |parts| ==> WellWeighted(parts[k])
    ensures root.Node? && WellWeighted(root)
    ensures root.weight == SumW(parts)
    ensures multiset(Leaves(root)) == multiset(AllLeaves(parts))
    ensures |run| == |parts| - 1 && GreedyRun(multiset(parts), run) && After(multiset(parts), run) == multiset{root}
  {
    var left, heap, i0 := PopMin(parts);
    StartBag(parts, i0);
    StartMass(parts, i0);
    StartWeighted(parts, i0);
    run := [];
    var n := 2;
    while n < |parts|
      invariant 2 <= n <= |parts| && |heap| == |parts| - n + 1 && |run| == n - 2
      invariant BagState(parts, run, left, heap) && MassState(parts, left, heap)
      invariant LeafState(parts, left, heap) && WeightedState(left, heap)
    {
      var b, others, i := PopMin(heap);
      var node := Add(left, b);
      var left', heap', k := PushPop(others, node);
      StepMerge(parts, run, left, heap, i);
      StepPushPop(After(multiset(parts), run + [Merge(left, b)]), others, node, k, left', heap');
      StepMass(parts, left, heap, i, k, left', heap');
      StepWeighted(left, heap, i, k, left', heap');
      run := run + [Merge(left, b)];
      left, heap := left', heap';
      n := n + 1;
    }
    LastMerge(parts, run, left, heap);
    LastMass(parts, left, heap);
    run := run + [Merge(left, heap[0])];
    root := Add(left, heap[0]);
  }
}
