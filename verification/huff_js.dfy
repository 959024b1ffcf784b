/**
 * huffman/huff.mjs: the JavaScript Huffman tree. A `Root` starts as the
 * array of leaves of an occurrence `Map` and, while it holds more than two
 * parts, takes out its lightest part twice and pushes a node over the two;
 * `getCodeMap` fills a `CodeMap` with the '0'/'1' path to every leaf;
 * `CodeMap.encode` packs a guard bit and the codes into bytes and `decode`
 * reads them back. A `Leaf`, or a `Node` array of two parts, is a
 * `BinTree.Tree`; the `Root` array itself is the class below.
 */
module HuffJs {
  import opened Results
  import opened Bits
  import opened CodeTable
  import opened BinTree
  import opened Counting
  import opened Greedy

  // ---------------------------------------------------------------- occurence

  /** The keys of an insertion-ordered `Map` are pairwise different. */
  ghost predicate DistinctKeys<T>(occ: seq<(T, nat)>) {
    forall a, b :: 0 <= a < b < |occ| ==> occ[a].0 != occ[b].0
  }

  /**
   * `occurence()`: count the items into a `Map` (the counting loop is
   * `Counting.Tally`). Each distinct item is a key once, in order of first
   * appearance, with its exact count.
   */
  method Occurence<T(==)>(xs: seq<T>) returns (occ: seq<(T, nat)>)
    ensures occ == Entries(xs) && DistinctKeys(occ) && Keys(occ) == Firsts(xs)
    ensures forall i :: 0 <= i < |occ| ==> occ[i].1 == Count(xs, occ[i].0) && occ[i].1 > 0
  {
    occ := Tally(xs);
    FirstsAreDistinctItems(xs);
  }

  // ---------------------------------------------------------------- depth

  /**
   * `_depth(depthOffset)`: a leaf answers `depthOffset + 1`, a node the
   * larger answer of its two parts one level down. That is the offset plus
   * the number of levels, the same as `BinTree.DepthFrom` one level further.
   */
  function DepthAt<T>(t: Tree<T>, offset: int): (d: int)
    ensures d == offset + 1 + Height(t) && d == DepthFrom(t, offset + 1)
  {
    match t
    case Leaf(_, _) => offset + 1
    case Node(_, l, r) => Max(DepthAt(l, offset + 1), DepthAt(r, offset + 1))
  }

  // ---------------------------------------------------------------- the root array

  /**
   * The array `_popLight` leaves when it takes out slot `i`: the parts
   * between the first slot and slot `i`, then the first part, then the
   * parts after slot `i`.
   */
  function Shifted<T>(s: seq<Tree<T>>, i: nat): (r: seq<Tree<T>>)
    requires i < |s|
    ensures |r| == |s| - 1
    ensures forall k :: 0 < k < |s| && k != i ==> r[k - 1] == s[k]
    ensures 0 < i ==> r[i - 1] == s[0]
  {
    if i == 0 then s[1..] else s[1..i] + [s[0]] + s[i + 1..]
  }

  /** Shifting out slot `i` takes exactly the part at `i` out of the bag. */
  lemma ShiftedBag<T>(s: seq<Tree<T>>, i: nat)
    requires i < |s|
    ensures multiset(s) == multiset(Shifted(s, i)) + multiset{s[i]}
  {
    if i > 0 {
      assert s == [s[0]] + s[1..i] + [s[i]] + s[i + 1..];
    } else {
      assert s == [s[0]] + s[1..];
    }
  }

  /** Taking `y` out of `[x] + a + [y] + b` and moving `x` behind `a` takes out exactly `y`'s weight. */
  lemma SwapWeight<T>(a: seq<Tree<T>>, x: Tree<T>, y: Tree<T>, b: seq<Tree<T>>)
    ensures SumW([x] + a + [y] + b) == SumW(a + [x] + b) + y.weight
  {
    ConcatParts([x] + a + [y], b);
    ConcatParts([x] + a, [y]);
    ConcatParts([x], a);
    ConcatParts(a + [x], b);
    ConcatParts(a, [x]);
    assert [y][..0] == [];
  }

  /** The same move takes out exactly `y`'s leaves. */
  lemma SwapLeaves<T>(a: seq<Tree<T>>, x: Tree<T>, y: Tree<T>, b: seq<Tree<T>>)
    ensures multiset(AllLeaves([x] + a + [y] + b)) == multiset(AllLeaves(a + [x] + b)) + multiset(Leaves(y))
  {
    ConcatParts([x] + a + [y], b);
    ConcatParts([x] + a, [y]);
    ConcatParts([x], a);
    ConcatParts(a + [x], b);
    ConcatParts(a, [x]);
    SingleMass(x);
    SingleMass(y);
    SwapOrder(Leaves(x), AllLeaves(a), Leaves(y), AllLeaves(b));
  }

  /** Moving `x` past `a` and taking `y` out, as bags. */
  lemma SwapOrder<X>(x: seq<X>, a: seq<X>, y: seq<X>, b: seq<X>)
    ensures multiset(x + a + y + b) == multiset(a + x + b) + multiset(y)
  {
  }

  /** For an inner slot, the parts around it and the order `Shifted` leaves them in. */
  lemma ShiftSplit<T>(s: seq<Tree<T>>, i: nat)
    requires 0 < i < |s|
    ensures s == [s[0]] + s[1..i] + [s[i]] + s[i + 1..]
    ensures Shifted(s, i) == s[1..i] + [s[0]] + s[i + 1..]
  {
  }

  /** Shifting out slot `i` takes exactly the weight of the part at `i`. */
  lemma ShiftedWeight<T>(s: seq<Tree<T>>, i: nat)
    requires i < |s|
    ensures SumW(s) == SumW(Shifted(s, i)) + s[i].weight
  {
    if i > 0 {
      InnerWeight(s, i);
    } else {
      FrontWeight(s, i);
    }
  }

  lemma InnerWeight<T>(s: seq<Tree<T>>, i: nat)
    requires 0 < i < |s|
    ensures SumW(s) == SumW(Shifted(s, i)) + s[i].weight
  {
    ShiftSplit(s, i);
    SwapWeight(s[1..i], s[0], s[i], s[i + 1..]);
  }

  lemma FrontWeight<T>(s: seq<Tree<T>>, i: nat)
    requires i == 0 < |s|
    ensures SumW(s) == SumW(Shifted(s, i)) + s[i].weight
  {
    FrontSplit(s);
    SingleMass(s[0]);
  }

  /** The front part and the rest, as `ConcatParts` sees them. */
  lemma FrontSplit<T>(s: seq<Tree<T>>)
    requires 0 < |s|
    ensures SumW(s) == SumW([s[0]]) + SumW(s[1..])
    ensures AllLeaves(s) == AllLeaves([s[0]]) + AllLeaves(s[1..])
  {
    assert s == [s[0]] + s[1..];
    ConcatParts([s[0]], s[1..]);
  }

  lemma SingleMass<T>(x: Tree<T>)
    ensures SumW([x]) == x.weight && AllLeaves([x]) == Leaves(x)
  {
    assert [x][..0] == [];
  }

  /** Shifting out slot `i` takes exactly the leaves of the part at `i`. */
  lemma ShiftedLeaves<T>(s: seq<Tree<T>>, i: nat)
    requires i < |s|
    ensures multiset(AllLeaves(s)) == multiset(AllLeaves(Shifted(s, i))) + multiset(Leaves(s[i]))
  {
    if i > 0 {
      InnerLeaves(s, i);
    } else {
      FrontLeaves(s, i);
    }
  }

  lemma InnerLeaves<T>(s: seq<Tree<T>>, i: nat)
    requires 0 < i < |s|
    ensures multiset(AllLeaves(s)) == multiset(AllLeaves(Shifted(s, i))) + multiset(Leaves(s[i]))
  {
    ShiftSplit(s, i);
    SwapLeaves(s[1..i], s[0], s[i], s[i + 1..]);
  }

  lemma FrontLeaves<T>(s: seq<Tree<T>>, i: nat)
    requires i == 0 < |s|
    ensures multiset(AllLeaves(s)) == multiset(AllLeaves(Shifted(s, i))) + multiset(Leaves(s[i]))
  {
    FrontSplit(s);
    SingleMass(s[0]);
  }

  /** The greedy merges so far, made from the leaves of `occ`, left the parts `parts`. */
  ghost predicate Merged<T>(occ: seq<(T, nat)>, run: seq<Merge<T>>, parts: seq<Tree<T>>) {
    GreedyRun(multiset(LeafParts(occ)), run) && After(multiset(LeafParts(occ)), run) == multiset(parts)
  }

  /** The parts weigh the total count, hold the entries as leaves and are well weighted. */
  ghost predicate Kept<T>(occ: seq<(T, nat)>, parts: seq<Tree<T>>) {
    SumW(parts) == SumCounts(occ) && multiset(AllLeaves(parts)) == multiset(Swapped(occ)) &&
    forall p :: p in parts ==> WellWeighted(p)
  }

  /** `b` is `a` without the part `x`: one part fewer in the bag, `x`'s weight and leaves less. */
  ghost predicate TakesOut<T>(a: seq<Tree<T>>, x: Tree<T>, b: seq<Tree<T>>) {
    multiset(a) == multiset(b) + multiset{x} &&
    SumW(a) == SumW(b) + x.weight && multiset(AllLeaves(a)) == multiset(AllLeaves(b)) + multiset(Leaves(x))
  }

  /** The state of the constructor's loop: at least two parts, built from the leaves by greedy merges. */
  ghost predicate Building<T>(occ: seq<(T, nat)>, run: seq<Merge<T>>, parts: seq<Tree<T>>) {
    |parts| >= 2 && |run| == |occ| - |parts| && Merged(occ, run, parts) && Kept(occ, parts)
  }

  /**
   * `after` is `before` once `_popLight` has taken out `lightest`, found at
   * `i`: a part of least weight, the first such, and the others kept in
   * the order `Shifted` leaves them.
   */
  ghost predicate Popped<T>(before: seq<Tree<T>>, lightest: Tree<T>, i: nat, after: seq<Tree<T>>) {
    i < |before| && lightest == before[i] &&
    (forall k :: 0 <= k < |before| ==> lightest.weight <= before[k].weight) &&
    (forall k :: 0 <= k < i ==> before[k].weight > lightest.weight) &&
    after == Shifted(before, i)
  }

  /** The state the constructor leaves: two parts under a root that weighs the total and holds the entries. */
  ghost predicate Built<T>(occ: seq<(T, nat)>, run: seq<Merge<T>>, parts: seq<Tree<T>>, weight: int) {
    |parts| == 2 && DistinctKeys(occ) &&
    weight == parts[0].weight + parts[1].weight == SumCounts(occ) &&
    WellWeighted(Node(weight, parts[0], parts[1])) &&
    multiset(Leaves(Node(weight, parts[0], parts[1]))) == multiset(Swapped(occ)) &&
    |run| == |occ| - 2 && Merged(occ, run, parts)
  }

  /** The leaves of two or more entries start the loop. */
  lemma StartParts<T>(occ: seq<(T, nat)>)
    requires |occ| >= 2
    ensures Building(occ, [], LeafParts(occ))
  {
    LeafPartsMass(occ);
  }

  /** When the loop stops at two parts, the root over them is what the constructor promises. */
  lemma LastTwo<T>(occ: seq<(T, nat)>, run: seq<Merge<T>>, parts: seq<Tree<T>>)
    requires Building(occ, run, parts) && |parts| == 2 && DistinctKeys(occ)
    ensures Built(occ, run, parts, parts[0].weight + parts[1].weight)
  {
    var p0, p1 := parts[0], parts[1];
    TwoParts(parts);
    assert p0 in parts && p1 in parts;
    assert Leaves(Node(p0.weight + p1.weight, p0, p1)) == Leaves(p0) + Leaves(p1);
  }

  /** Two parts weigh and hold what their node does. */
  lemma TwoParts<T>(parts: seq<Tree<T>>)
    requires |parts| == 2
    ensures SumW(parts) == parts[0].weight + parts[1].weight
    ensures AllLeaves(parts) == Leaves(parts[0]) + Leaves(parts[1])
  {
    var p0, p1 := parts[0], parts[1];
    assert parts == [p0] + [p1];
    SingleMass(p0);
    PushWeight([p0], p1);
    ConcatParts([p0], [p1]);
    SingleMass(p1);
  }

  /**
   * One pass of the constructor's loop: pop a lightest part `i`, pop a
   * lightest part `j` of the rest, push their node. The parts stay the
   * outcome of greedy merges and keep weight, leaves and weighting.
   */
  lemma PopTwice<T>(occ: seq<(T, nat)>, run: seq<Merge<T>>, a0: seq<Tree<T>>, x: Tree<T>, i: nat, a1: seq<Tree<T>>,
                    y: Tree<T>, j: nat, a2: seq<Tree<T>>, run': seq<Merge<T>>, parts': seq<Tree<T>>)
    requires Building(occ, run, a0) && |a0| > 2
    requires Popped(a0, x, i, a1) && Popped(a1, y, j, a2)
    requires run' == run + [Merge(x, y)] && parts' == a2 + [Node(x.weight + y.weight, x, y)]
    ensures Building(occ, run', parts')
  {
    ShiftedTakesOut(a0, i);
    ShiftedTakesOut(a1, j);
    StepMerged(occ, run, a0, x, a1, y, a2);
    StepKept(occ, a0, x, a1, y, a2);
  }

  lemma ShiftedTakesOut<T>(s: seq<Tree<T>>, i: nat)
    requires i < |s|
    ensures TakesOut(s, s[i], Shifted(s, i))
  {
    ShiftedBag(s, i);
    ShiftedWeight(s, i);
    ShiftedLeaves(s, i);
  }

  /**
   * Taking out a lightest part `x`, then a lightest part `y` of what is
   * left, and pushing their node is one more greedy merge.
   */
  lemma StepMerged<T>(occ: seq<(T, nat)>, run: seq<Merge<T>>, a0: seq<Tree<T>>, x: Tree<T>, a1: seq<Tree<T>>,
                      y: Tree<T>, a2: seq<Tree<T>>)
    requires Merged(occ, run, a0) && TakesOut(a0, x, a1) && TakesOut(a1, y, a2)
    requires forall k :: 0 <= k < |a0| ==> x.weight <= a0[k].weight
    requires forall k :: 0 <= k < |a1| ==> y.weight <= a1[k].weight
    ensures Merged(occ, run + [Merge(x, y)], a2 + [Add(x, y)])
  {
    StepGreedy(multiset(LeafParts(occ)), run, a0, x, a1, y, a2);
  }

  /** The same step, stated on the bag the run starts from. */
  lemma StepGreedy<T>(bag: multiset<Tree<T>>, run: seq<Merge<T>>, a0: seq<Tree<T>>, x: Tree<T>, a1: seq<Tree<T>>,
                      y: Tree<T>, a2: seq<Tree<T>>)
    requires GreedyRun(bag, run) && After(bag, run) == multiset(a0)
    requires multiset(a0) == multiset(a1) + multiset{x} && multiset(a1) == multiset(a2) + multiset{y}
    requires forall k :: 0 <= k < |a0| ==> x.weight <= a0[k].weight
    requires forall k :: 0 <= k < |a1| ==> y.weight <= a1[k].weight
    ensures GreedyRun(bag, run + [Merge(x, y)]) && After(bag, run + [Merge(x, y)]) == multiset(a2 + [Add(x, y)])
  {
    var n := Add(x, y);
    LightestOfList(x, a1);
    LightestOfList(y, a2);
    BagStep(After(bag, run), multiset(a1), multiset(a2), x, y, n);
    GreedySnoc(bag, run, Merge(x, y));
    assert multiset(a2 + [n]) == multiset(a2) + multiset{n};
  }

  /** Taking `x` and then `y` out of a bag and putting `n` in. */
  lemma BagStep<T>(b0: multiset<Tree<T>>, b1: multiset<Tree<T>>, b2: multiset<Tree<T>>, x: Tree<T>, y: Tree<T>, n: Tree<T>)
    requires b0 == b1 + multiset{x} && b1 == b2 + multiset{y}
    ensures b0 - multiset{x} == b1 && b0 - multiset{x} - multiset{y} + multiset{n} == b2 + multiset{n}
  {
  }

  /** The same step keeps the weight, the leaves and the weighting of the parts. */
  lemma StepKept<T>(occ: seq<(T, nat)>, a0: seq<Tree<T>>, x: Tree<T>, a1: seq<Tree<T>>, y: Tree<T>, a2: seq<Tree<T>>)
    requires Kept(occ, a0) && TakesOut(a0, x, a1) && TakesOut(a1, y, a2)
    ensures Kept(occ, a2 + [Add(x, y)])
  {
    KeptWeight(a0, x, a1, y, a2);
    KeptLeaves(a0, x, a1, y, a2);
    KeptWeighted(a0, x, a1, y, a2);
  }

  lemma KeptWeight<T>(a0: seq<Tree<T>>, x: Tree<T>, a1: seq<Tree<T>>, y: Tree<T>, a2: seq<Tree<T>>)
    requires SumW(a0) == SumW(a1) + x.weight && SumW(a1) == SumW(a2) + y.weight
    ensures SumW(a2 + [Add(x, y)]) == SumW(a0)
  {
    PushWeight(a2, Add(x, y));
  }

  lemma KeptLeaves<T>(a0: seq<Tree<T>>, x: Tree<T>, a1: seq<Tree<T>>, y: Tree<T>, a2: seq<Tree<T>>)
    requires multiset(AllLeaves(a0)) == multiset(AllLeaves(a1)) + multiset(Leaves(x))
    requires multiset(AllLeaves(a1)) == multiset(AllLeaves(a2)) + multiset(Leaves(y))
    ensures multiset(AllLeaves(a2 + [Add(x, y)])) == multiset(AllLeaves(a0))
  {
    PushLeaves(a2, Add(x, y));
  }

  lemma KeptWeighted<T>(a0: seq<Tree<T>>, x: Tree<T>, a1: seq<Tree<T>>, y: Tree<T>, a2: seq<Tree<T>>)
    requires forall p :: p in a0 ==> WellWeighted(p)
    requires multiset(a0) == multiset(a1) + multiset{x} && multiset(a1) == multiset(a2) + multiset{y}
    ensures forall p :: p in a2 + [Add(x, y)] ==> WellWeighted(p)
  {
    assert x in multiset(a0) && y in multiset(a1) && y in multiset(a0);
    assert WellWeighted(Add(x, y));
    forall p | p in a2 + [Add(x, y)] ensures WellWeighted(p) {
      if p in a2 {
        assert p in multiset(a2);
        assert p in multiset(a0);
      }
    }
  }

  /**
   * `Root`: the array of parts, its weight (`#weight`, set once the loop is
   * done), and, as ghost state, the occurrence map it was built from and
   * the merges the loop made.
   */
  class Root<T(==)> {
    var parts: seq<Tree<T>>
    var weight: int
    ghost var occ: seq<(T, nat)>
    ghost var run: seq<Merge<T>>

    /**
     * The tree the root stands for: a node over its two parts. Once built,
     * it weighs the total count, every node weighs its two parts, and its
     * leaves are the map's entries, each once.
     */
    function AsTree(): (t: Tree<T>)
      reads this
      requires |parts| == 2
      ensures Valid() ==>
        t.Node? && WellWeighted(t) && t.weight == SumCounts(occ) &&
        multiset(Leaves(t)) == multiset(Swapped(occ))
    {
      Node(weight, parts[0], parts[1])
    }

    /**
     * What the constructor leaves: two parts, a root weighing them both and
     * the total count, every entry of the map a leaf, built by greedy
     * merges from the leaves, one merge per entry beyond two.
     */
    ghost predicate Valid()
      reads this
    {
      Built(occ, run, parts, weight)
    }

    /**
     * `new Root(occurence)`: one leaf per entry, in map order; while more
     * than two parts are left, pop the lightest part as `left`, pop the
     * lightest again as `right` and push a node over them weighing both.
     * With fewer than two entries the loop never stops, so two are needed.
     */
    constructor (occurence: seq<(T, nat)>)
      requires |occurence| >= 2 && DistinctKeys(occurence)
      ensures Valid() && occ == occurence
    {
      new;
      parts := LeafParts(occurence);
      weight := 0;
      occ := occurence;
      run := [];
      StartParts(occurence);
      while |parts| != 2
        invariant Building(occurence, run, parts) && occ == occurence
        decreases |parts|
      {
        ghost var a0, r0 := parts, run;
        var left, i := PopLight();
        ghost var a1 := parts;
        var right, j := PopLight();
        ghost var a2 := parts;
        parts := parts + [Node(left.weight + right.weight, left, right)];
        run := run + [Merge(left, right)];
        PopTwice(occurence, r0, a0, left, i, a1, right, j, a2, run, parts);
      }
      weight := parts[0].weight + parts[1].weight;
      LastTwo(occurence, run, parts);
    }

    /**
     * `_popLight()`: scan for the first part of least weight, write the
     * first part over its slot and shift the first slot off. Every other
     * part stays, in order.
     */
    method PopLight() returns (lightest: Tree<T>, i: nat)
      requires |parts| >= 1
      modifies this
      ensures Popped(old(parts), lightest, i, parts)
      ensures weight == old(weight) && occ == old(occ) && run == old(run)
    {
      var a := parts;
      lightest, i := a[0], 0;
      for j := 1 to |a|
        invariant i < j && lightest == a[i]
        invariant forall k :: 0 <= k < j ==> lightest.weight <= a[k].weight
        invariant forall k :: 0 <= k < i ==> a[k].weight > lightest.weight
      {
        if a[j].weight < lightest.weight {
          lightest, i := a[j], j;
        }
      }
      parts := parts[i := parts[0]];
      parts := parts[1..];
    }

    /**
     * `depth` (`_depth(0)` on the root): one more than the longest
     * root-to-leaf path, so the number of levels.
     */
    function Depth(): (d: int)
      reads this
      requires |parts| == 2
      ensures d == Height(AsTree()) + 1
      ensures forall path :: Walk(AsTree(), path).Some? ==> |path| < d
      ensures exists path :: Walk(AsTree(), path).Some? && |path| == d - 1
    {
      var d := Max(DepthAt(parts[0], 1), DepthAt(parts[1], 1));
      assert forall path :: Walk(AsTree(), path).Some? ==> |path| < d by {
        forall path | Walk(AsTree(), path).Some? ensures |path| < d {
          PathWithinHeight(AsTree(), path);
        }
      }
      assert exists path :: Walk(AsTree(), path).Some? && |path| == d - 1 by {
        var deepest := DeepestPath(AsTree());
        assert Walk(AsTree(), deepest).Some? && |deepest| == d - 1;
      }
      d
    }

    /**
     * `getCodeMap()`: a new `CodeMap` filled by `setBits` from the empty
     * code. For a valid root the two maps are inverse, decodable, free of
     * the empty code, and give every key of the occurrence map a code.
     */
    method GetCodeMap() returns (m: CodeMap<T>)
      requires |parts| == 2
      ensures fresh(m)
      ensures m.charMap == EncodeMap(CodeCalls(AsTree(), "")) && m.binMap == DecodeMap(CodeCalls(AsTree(), ""))
      ensures Valid() ==>
        Inverse(m.charMap, m.binMap) && Decodable(m.charMap, m.binMap) && "" !in m.binMap &&
        (forall v :: v in m.charMap ==> IsBits(m.charMap[v])) &&
        forall k :: 0 <= k < |occ| ==> occ[k].0 in m.charMap
    {
      var t := AsTree();
      if Valid() {
        ValidTable(t, occ);
      }
      m := new CodeMap();
      m.SetBits(t, "");
      EmptyUnion(EncodeMap(CodeCalls(t, "")));
      EmptyUnion(DecodeMap(CodeCalls(t, "")));
    }
  }

  /**
   * The tables a valid root's `setBits` fills are inverse, decodable, free
   * of the empty code and made of bit strings, and every entry has a code.
   */
  lemma ValidTable<T>(t: Tree<T>, occ: seq<(T, nat)>)
    requires t.Node? && DistinctKeys(occ) && multiset(Leaves(t)) == multiset(Swapped(occ))
    ensures var e, d := EncodeMap(CodeCalls(t, "")), DecodeMap(CodeCalls(t, ""));
      Inverse(e, d) && Decodable(e, d) && "" !in d &&
      (forall v :: v in e ==> IsBits(e[v])) &&
      forall k :: 0 <= k < |occ| ==> occ[k].0 in e
  {
    EntryLeaves(t, occ);
    RootTable(t);
    RootCodes(t);
  }

  /** The codes of a root node are non-empty bit strings. */
  lemma RootCodes<T>(t: Tree<T>)
    requires t.Node?
    ensures forall c :: c in DecodeMap(CodeCalls(t, "")) ==> c != "" && IsBits(c)
  {
    var calls := CodeCalls(t, "");
    CodesAreBits(t, "");
    forall c | c in DecodeMap(calls) ensures c != "" && IsBits(c) {
      var i := CodeIndex(calls, c);
    }
  }

  // ---------------------------------------------------------------- packing

  /**
   * The bits `encode` builds: the guard bit "1", then for each item its
   * code, or the text "undefined" when `charMap.get` finds none.
   */
  function Spelled<T(==)>(xs: seq<T>, e: map<T, string>): (s: string)
    ensures (forall v :: v in e ==> IsBits(e[v])) ==>
      (IsBits(s) <==> forall k :: 0 <= k < |xs| ==> xs[k] in e)
  {
    if xs == [] then ""
    else
      var x := xs[|xs| - 1];
      var init := Spelled(xs[..|xs| - 1], e);
      var piece := if x in e then e[x] else "undefined";
      assert piece == "undefined" ==> piece[0] == 'u';
      BitsJoin(init, piece);
      init + piece
  }

  /** Two strings joined are a bit string exactly when both are. */
  lemma BitsJoin(a: string, b: string)
    ensures IsBits(a + b) <==> IsBits(a) && IsBits(b)
  {
    var ab := a + b;
    assert forall i :: 0 <= i < |a| ==> a[i] == ab[i];
    assert forall i :: 0 <= i < |b| ==> b[i] == ab[|a| + i];
  }

  /** When every item has a code, the text is the concatenated codes. */
  lemma {:induction false} SpelledIsEncoded<T>(xs: seq<T>, e: map<T, string>)
    requires forall k :: 0 <= k < |xs| ==> xs[k] in e
    ensures Spelled(xs, e) == Encoded(xs, e)
  {
    if xs != [] {
      var init := xs[..|xs| - 1];
      SpelledIsEncoded(init, e);
      EncodedSnoc(init, xs[|xs| - 1], e);
      assert init + [xs[|xs| - 1]] == xs;
    }
  }

  /** The leading run of '0'/'1' characters: what `parseInt(_, 2)` reads. */
  function BinaryPrefix(s: string): (p: string)
    ensures p <= s && IsBits(p)
    ensures |p| < |s| ==> s[|p|] != '0' && s[|p|] != '1'
  {
    if s != [] && (s[0] == '0' || s[0] == '1') then
      var rest := BinaryPrefix(s[1..]);
      assert [s[0]] + rest <= [s[0]] + s[1..];
      assert s == [s[0]] + s[1..];
      [s[0]] + rest
    else ""
  }

  /**
   * `parseInt(chunk, 2)` stored in a `Uint8Array`: the value of the
   * chunk's leading binary digits; with none, `NaN`, stored as 0.
   */
  function ParseByte(chunk: string): (b: byte)
    requires |chunk| <= 8
    ensures IsBits(chunk) ==> b == Unsigned(chunk)
  {
    var p := BinaryPrefix(chunk);
    ValueBound(p);
    Pow2Mono(|p|, 8);
    assert Pow2(8) == 256;
    assert IsBits(chunk) ==> p == chunk;
    Unsigned(p) as byte
  }

  /** `.match(/.{1,8}/g).map(...)` on a string whose length is a multiple of 8. */
  function ParseChunks(s: string): (bs: seq<byte>)
    requires |s| % 8 == 0
    ensures |bs| == |s| / 8
    ensures IsBits(s) ==> bs == Chunk8(s)
    decreases |s|
  {
    if s == [] then []
    else
      assert IsBits(s) ==> IsBits(s[..8]) && IsBits(s[8..]);
      [ParseByte(s[..8])] + ParseChunks(s[8..])
  }

  /**
   * The bytes `encode` returns for its bit string `s`: `s` left-padded with
   * `8 - |s| % 8` zeros (one to eight), cut into bytes, most significant
   * first; `|s| / 8 + 1` of them.
   */
  function JsPack(s: string): (bs: seq<byte>)
    ensures |bs| == |s| / 8 + 1
    ensures IsBits(s) ==> Unchunk(bs) == Zeros(8 - |s| % 8) + s
  {
    var padded := Zeros(8 - |s| % 8) + s;
    assert |padded| == 8 * (|s| / 8 + 1);
    assert IsBits(s) ==> Unchunk(ParseChunks(padded)) == padded by {
      if IsBits(s) {
        assert IsBits(padded);
        UnchunkChunk(padded);
      }
    }
    ParseChunks(padded)
  }

  /**
   * What `CodeMap.encode` returns for the map `e`: with a bit-string code
   * for every item, whole bytes holding padding zeros, the guard bit and
   * the codes.
   */
  function Encoding<T(==)>(e: map<T, string>, xs: seq<T>): (bs: seq<byte>)
    ensures |bs| == (1 + |Spelled(xs, e)|) / 8 + 1
    ensures (forall v :: v in e ==> IsBits(e[v])) && (forall k :: 0 <= k < |xs| ==> xs[k] in e) ==>
      var s := "1" + Encoded(xs, e); Unchunk(bs) == Zeros(8 - |s| % 8) + s
  {
    SpelledWhenCoded(xs, e);
    GuardBits(Spelled(xs, e));
    JsPack("1" + Spelled(xs, e))
  }

  lemma SpelledWhenCoded<T>(xs: seq<T>, e: map<T, string>)
    ensures (forall k :: 0 <= k < |xs| ==> xs[k] in e) ==> Spelled(xs, e) == Encoded(xs, e)
  {
    if forall k :: 0 <= k < |xs| ==> xs[k] in e {
      SpelledIsEncoded(xs, e);
    }
  }

  // ---------------------------------------------------------------- unpacking

  /** `byte.toString(2)` left-padded with zeros to eight characters: the byte's eight bits. */
  function ByteString(b: byte): (s: string)
    ensures s == BitsOf(b, 8)
  {
    var digits := Binary([b]);
    ByteDigits(b);
    Zeros(8 - |digits|) + digits
  }

  lemma ByteDigits(b: byte)
    ensures |Binary([b])| <= 8 && Zeros(8 - |Binary([b])|) + Binary([b]) == BitsOf(b, 8)
  {
    var u := Unchunk([b]);
    assert [b][..0] == [];
    assert u == BitsOf(b, 8);
    StripZerosSplit(u);
    if StripZeros(u) == "" {
      assert Zeros(7) + "0" == Zeros(8);
    }
  }

  /** `s.indexOf('1')`: the first position holding '1', or -1. */
  function IndexOfOne(s: string): (k: int)
    ensures -1 <= k < |s|
    ensures k >= 0 ==> s[k] == '1'
    ensures forall j :: 0 <= j < |s| && (k < 0 || j < k) ==> s[j] != '1'
  {
    if s == [] then -1
    else if s[0] == '1' then 0
    else
      var r := IndexOfOne(s[1..]);
      if r < 0 then -1 else r + 1
  }

  /**
   * `CodeMap.decode` as written: `TypeError` on no bytes; otherwise join
   * the bytes' bit strings, drop everything up to the first '1' *of the
   * first byte* (nothing when that byte is zero, as `indexOf` answers -1)
   * and scan the rest through the code -> value map.
   */
  function DecodeAsWritten<T>(d: map<string, T>, bs: seq<byte>): (r: Result<seq<T>>)
    ensures r.Err? <==> bs == []
    ensures r.Err? ==> r.error == TypeError
  {
    if bs == [] then Err(TypeError)
    else
      var joined := Unchunk(bs);
      Ok(Scan(d, joined[IndexOfOne(BitsOf(bs[0], 8)) + 1..], "").0)
  }

  /** Whenever the first byte holds a '1', the source's decode is the evident one. */
  lemma AsWrittenAgrees<T>(d: map<string, T>, bs: seq<byte>)
    requires bs != [] && IndexOfOne(BitsOf(bs[0], 8)) >= 0
    ensures DecodeAsWritten(d, bs) == Decoding(d, bs)
  {
    FirstByte(bs);
    FirstOne(Unchunk(bs), BitsOf(bs[0], 8));
  }

  /** A '1' in a prefix of a string is the first '1' of the whole string. */
  lemma FirstOne(s: string, front: string)
    requires |front| <= |s| && s[..|front|] == front
    ensures IndexOfOne(front) >= 0 ==> IndexOfOne(s) == IndexOfOne(front)
  {
    var k, k2 := IndexOfOne(front), IndexOfOne(s);
    if k >= 0 {
      assert s[k] == front[k] == '1';
      assert 0 <= k2 <= k;
      assert s[k2] == front[k2];
    }
  }

  /**
   * `decode` as evidently meant: drop everything up to the first '1' of
   * all the bits, the guard bit. No bytes is a `TypeError`.
   */
  function Decoding<T>(d: map<string, T>, bs: seq<byte>): (r: Result<seq<T>>)
    ensures r.Err? <==> bs == []
    ensures r.Err? ==> r.error == TypeError
  {
    if bs == [] then Err(TypeError)
    else
      var joined := Unchunk(bs);
      Ok(Scan(d, joined[IndexOfOne(joined) + 1..], "").0)
  }

  /** The first '1' after `n` zeros is at `n`. */
  lemma OneAfterZeros(n: nat, s: string)
    requires s != [] && s[0] == '1'
    ensures IndexOfOne(Zeros(n) + s) == n
  {
    var z := Zeros(n) + s;
    assert z[n] == '1';
    assert forall j :: 0 <= j < n ==> z[j] != '1';
  }

  /** The facts about the packed bytes of "1" and the codes of `xs` both decoders rely on. */
  lemma PackedCodes<T>(e: map<T, string>, d: map<string, T>, xs: seq<T>, s: string, bs: seq<byte>)
    requires Decodable(e, d) && forall v :: v in e ==> IsBits(e[v])
    requires forall k :: 0 <= k < |xs| ==> xs[k] in e
    requires s == "1" + Encoded(xs, e) && bs == Encoding(e, xs)
    ensures IsBits(s) && bs != [] && Unchunk(bs) == Zeros(8 - |s| % 8) + s
    ensures s != [] && s[0] == '1' && Scan(d, s[1..], "").0 == xs
  {
    var codes := Encoded(xs, e);
    SpelledIsEncoded(xs, e);
    assert bs == JsPack(s);
    EncodedBits(xs, e);
    GuardBits(codes);
    assert s[1..] == codes;
    ScanEncoded(e, d, xs);
  }

  /**
   * `decode(encode(xs)) == xs` for the evident decode, whatever the length
   * of the bit string: the padding is followed by the guard bit.
   */
  lemma RoundTrip<T>(e: map<T, string>, d: map<string, T>, xs: seq<T>)
    requires Decodable(e, d) && forall v :: v in e ==> IsBits(e[v])
    requires forall k :: 0 <= k < |xs| ==> xs[k] in e
    ensures Decoding(d, Encoding(e, xs)) == Ok(xs)
  {
    var s, bs := "1" + Encoded(xs, e), Encoding(e, xs);
    PackedCodes(e, d, xs, s, bs);
    EvidentGuard(d, bs, s);
  }

  /** The evident decode of bytes whose bits are padding zeros, then '1', then the rest. */
  lemma EvidentGuard<T>(d: map<string, T>, bs: seq<byte>, s: string)
    requires s != [] && s[0] == '1'
    requires bs != [] && Unchunk(bs) == Zeros(8 - |s| % 8) + s
    ensures Decoding(d, bs) == Ok(Scan(d, s[1..], "").0)
  {
    var n := 8 - |s| % 8;
    OneAfterZeros(n, s);
    assert (Zeros(n) + s)[n + 1..] == s[1..];
  }

  /** The first byte's eight bits are the first eight of all the bits. */
  lemma FirstByte(bs: seq<byte>)
    requires bs != []
    ensures Unchunk(bs)[..8] == BitsOf(bs[0], 8)
  {
    UnchunkCons(bs[0], bs[1..]);
    assert [bs[0]] + bs[1..] == bs;
  }

  /** Fewer than eight padding zeros: the guard bit is in the first byte, at `n`. */
  lemma GuardInFirstByte(n: nat, s: string)
    requires n < 8 && s != [] && s[0] == '1' && |Zeros(n) + s| >= 8
    ensures IndexOfOne((Zeros(n) + s)[..8]) == n
  {
    assert (Zeros(n) + s)[..8] == Zeros(n) + s[..8 - n];
    OneAfterZeros(n, s[..8 - n]);
  }

  /** The source's decode of bytes whose bits are fewer than eight padding zeros, then '1', then the rest. */
  lemma AsWrittenGuard<T>(d: map<string, T>, bs: seq<byte>, s: string)
    requires s != [] && s[0] == '1' && |s| % 8 != 0
    requires bs != [] && Unchunk(bs) == Zeros(8 - |s| % 8) + s
    ensures DecodeAsWritten(d, bs) == Ok(Scan(d, s[1..], "").0)
  {
    var n := 8 - |s| % 8;
    PadWidth(|s|);
    FirstByte(bs);
    GuardInFirstByte(n, s);
    assert (Zeros(n) + s)[n + 1..] == s[1..];
  }

  /** The source's decode of bytes whose first byte is all padding scans all the bits. */
  lemma AsWrittenZeros<T>(d: map<string, T>, bs: seq<byte>, s: string)
    requires |s| % 8 == 0 && bs != [] && Unchunk(bs) == Zeros(8 - |s| % 8) + s
    ensures DecodeAsWritten(d, bs) == Ok(Scan(d, Zeros(8) + s, "").0)
  {
    var n := 8 - |s| % 8;
    assert n == 8;
    FirstByte(bs);
    assert (Zeros(n) + s)[..8] == Zeros(n);
    assert forall j :: 0 <= j < n ==> Zeros(n)[j] != '1';
  }

  /**
   * The source's decode also gets `xs` back when the bit string "1" +
   * codes is not a whole number of bytes: then the first byte holds the
   * padding and the guard bit.
   */
  lemma AsWrittenRoundTrip<T>(e: map<T, string>, d: map<string, T>, xs: seq<T>)
    requires Decodable(e, d) && forall v :: v in e ==> IsBits(e[v])
    requires forall k :: 0 <= k < |xs| ==> xs[k] in e
    requires |"1" + Encoded(xs, e)| % 8 != 0
    ensures DecodeAsWritten(d, Encoding(e, xs)) == Ok(xs)
  {
    var s, bs := "1" + Encoded(xs, e), Encoding(e, xs);
    PackedCodes(e, d, xs, s, bs);
    AsWrittenGuard(d, bs, s);
  }

  /**
   * When "1" + codes is a whole number of bytes the padding is a whole zero
   * byte, the source's decode starts at its first bit, and reads the eight
   * zeros and the guard bit as data.
   */
  lemma AsWrittenZeroByte<T>(e: map<T, string>, d: map<string, T>, xs: seq<T>)
    requires Decodable(e, d) && forall v :: v in e ==> IsBits(e[v])
    requires forall k :: 0 <= k < |xs| ==> xs[k] in e
    requires |"1" + Encoded(xs, e)| % 8 == 0
    ensures DecodeAsWritten(d, Encoding(e, xs)) == Ok(Scan(d, Zeros(8) + ("1" + Encoded(xs, e)), "").0)
  {
    var s, bs := "1" + Encoded(xs, e), Encoding(e, xs);
    PackedCodes(e, d, xs, s, bs);
    AsWrittenZeros(d, bs, s);
  }

  /**
   * The codes 'a' -> "0", 'b' -> "1" and the input "abababa" make the eight
   * bits "10101010": the source's decode reads back sixteen items, the
   * evident decode the seven it was given.
   */
  lemma ZeroByteMisread(e: map<char, string>, d: map<string, char>, xs: string)
    requires e == map['a' := "0", 'b' := "1"] && d == map["0" := 'a', "1" := 'b'] && xs == "abababa"
    ensures Decoding(d, Encoding(e, xs)) == Ok(xs)
    ensures DecodeAsWritten(d, Encoding(e, xs)) == Ok("aaaaaaaababababa")
  {
    var ys := "aaaaaaaababababa";
    ExampleTable(e, d);
    ExampleCodes(e, xs, ys);
    RoundTrip(e, d, xs);
    AsWrittenZeroByte(e, d, xs);
    ScanEncoded(e, d, ys);
  }

  lemma ExampleTable(e: map<char, string>, d: map<string, char>)
    requires e == map['a' := "0", 'b' := "1"] && d == map["0" := 'a', "1" := 'b']
    ensures Decodable(e, d) && forall v :: v in e ==> IsBits(e[v])
  {
  }

  /** With the codes 'a' -> "0" and 'b' -> "1" each item becomes one bit. */
  lemma {:induction false} OneBitCodes(e: map<char, string>, xs: string)
    requires e == map['a' := "0", 'b' := "1"] && forall k :: 0 <= k < |xs| ==> xs[k] in e
    ensures |Encoded(xs, e)| == |xs|
    ensures forall k :: 0 <= k < |xs| ==> Encoded(xs, e)[k] == if xs[k] == 'a' then '0' else '1'
  {
    if xs != [] {
      OneBitCodes(e, xs[1..]);
    }
  }

  lemma ExampleCodes(e: map<char, string>, xs: string, ys: string)
    requires e == map['a' := "0", 'b' := "1"] && xs == "abababa" && ys == "aaaaaaaababababa"
    ensures forall k :: 0 <= k < |xs| ==> xs[k] in e
    ensures forall k :: 0 <= k < |ys| ==> ys[k] in e
    ensures |"1" + Encoded(xs, e)| % 8 == 0
    ensures Zeros(8) + ("1" + Encoded(xs, e)) == Encoded(ys, e)
  {
    OneBitCodes(e, xs);
    OneBitCodes(e, ys);
    var z := Zeros(8) + ("1" + Encoded(xs, e));
    assert |z| == |Encoded(ys, e)|;
    forall k | 0 <= k < |z| ensures z[k] == Encoded(ys, e)[k] {
      if k >= 9 {
        assert z[k] == Encoded(xs, e)[k - 9];
        assert xs[k - 9] == ys[k];
      }
    }
  }

  /** One step of the scan at position `n`: append the bit; emit and clear on a code. */
  lemma ScanOne<T>(d: map<string, T>, bits: string, n: nat, buf: string)
    requires n < |bits|
    ensures var b := buf + [bits[n]];
      Scan(d, bits[n..], buf).0 == if b in d then [d[b]] + Scan(d, bits[n + 1..], "").0 else Scan(d, bits[n + 1..], b).0
  {
    assert bits[n..][1..] == bits[n + 1..];
  }

  // ---------------------------------------------------------------- CodeMap

  /**
   * `CodeMap`: `charMap` (value -> code) and `binMap` (code -> value),
   * both insertion-ordered `Map`s that a later `set` of a key overwrites.
   */
  class CodeMap<T(==)> {
    var charMap: map<T, string>
    var binMap: map<string, T>

    constructor ()
      ensures charMap == map[] && binMap == map[]
    {
      charMap, binMap := map[], map[];
    }

    /**
     * `setBits(codeMap, bits)`: a leaf records its content under `bits` in
     * both maps; a node passes `bits + "0"` to its first part, then
     * `bits + "1"` to its second.
     */
    method SetBits(t: Tree<T>, bits: string)
      modifies this
      ensures charMap == old(charMap) + EncodeMap(CodeCalls(t, bits))
      ensures binMap == old(binMap) + DecodeMap(CodeCalls(t, bits))
      decreases t
    {
      match t
      case Leaf(_, v) =>
        charMap := charMap[v := bits];
        binMap := binMap[bits := v];
        MapsSingle(bits, v);
      case Node(_, l, r) =>
        ghost var e0, d0 := charMap, binMap;
        SetBits(l, bits + "0");
        SetBits(r, bits + "1");
        MapsAppend(e0, d0, CodeCalls(l, bits + "0"), CodeCalls(r, bits + "1"));
    }

    /**
     * `encode(decoded)`: "1", then each item's code (or "undefined"),
     * padded and packed by `JsPack`.
     */
    method Encode(xs: seq<T>) returns (bs: seq<byte>)
      ensures bs == Encoding(charMap, xs)
    {
      var bitString := "1";
      for n := 0 to |xs|
        invariant bitString == "1" + Spelled(xs[..n], charMap)
      {
        assert xs[..n + 1][..n] == xs[..n];
        bitString := bitString + (if xs[n] in charMap then charMap[xs[n]] else "undefined");
      }
      assert xs[..|xs|] == xs;
      bs := JsPack(bitString);
    }

    /**
     * `decode(encoded)` with the guard bit found in the whole bit string:
     * join the bytes' bit strings, skip past the first '1', then add one
     * bit at a time to a buffer and, whenever the buffer is a code, emit
     * its value and clear the buffer. Without an empty code, which
     * `getCodeMap` never makes, the source's inner loop over `binMap`
     * matches at most the one entry equal to the buffer.
     */
    method Decode(bs: seq<byte>) returns (r: Result<seq<T>>)
      requires "" !in binMap
      ensures r == Decoding(binMap, bs)
    {
      if bs == [] {
        return Err(TypeError);
      }
      var joined := "";
      for k := 0 to |bs|
        invariant joined == Unchunk(bs[..k])
      {
        assert bs[..k + 1][..k] == bs[..k];
        joined := joined + ByteString(bs[k]);
      }
      assert bs[..|bs|] == bs;
      var bits := joined[IndexOfOne(joined) + 1..];
      var decoded := ScanBits(bits);
      return Ok(decoded);
    }

    /**
     * The loop of `decode` over the bits after the guard: append each bit
     * to the buffer; when the buffer is a code of `binMap`, emit its value
     * and clear the buffer.
     */
    method ScanBits(bits: string) returns (decoded: seq<T>)
      requires "" !in binMap
      ensures decoded == Scan(binMap, bits, "").0
    {
      decoded := [];
      var buffer := "";
      assert bits[0..] == bits;
      for n := 0 to |bits|
        invariant decoded + Scan(binMap, bits[n..], buffer).0 == Scan(binMap, bits, "").0
      {
        ScanOne(binMap, bits, n, buffer);
        buffer := buffer + [bits[n]];
        if buffer in binMap {
          assert decoded + [binMap[buffer]] + Scan(binMap, bits[n + 1..], "").0 ==
            decoded + ([binMap[buffer]] + Scan(binMap, bits[n + 1..], "").0);
          decoded := decoded + [binMap[buffer]];
          buffer := "";
        }
      }
      assert bits[|bits|..] == [];
    }
  }
}
