/**
 * pytree/pytree.py, binary half: `BinLeaf`/`BinNode` built by `+`,
 * converted to and from nested tuples, walked by `code`, measured by
 * `depth`, `layers` and `len`, and grown by `huff_tree` from any sequence.
 * The parts themselves are `BinTree.Tree`; `+` is `BinTree.Add`, `len` is
 * `BinTree.Size`, `__code__` is `BinTree.CodeCalls` and `__layer__` is
 * `BinTree.SetLayer`.
 */
module PyBin {
  import opened Results
  import opened CodeTable
  import opened BinTree
  import opened Counting
  import opened Greedy

  /**
   * `BinNode.from_tuple(root)`: `ChildError` for a root tuple of fewer than
   * two items; otherwise the sum of the parts `__from_tuple__` builds from
   * its first two items, each leaf weighing 1 (a nested tuple of fewer than
   * two items raises `IndexError` on the way). Nested pairs come back as the
   * same nested pairs.
   */
  function BinFromTuple<T>(root: seq<Value<T>>): (r: Result<Tree<T>>)
    ensures r.Ok? <==> |root| >= 2 && Convertible(Tuple(root))
    ensures r.Err? ==> (r.error == ChildError <==> |root| < 2)
    ensures r.Err? ==> r.error in {ChildError, IndexError}
    ensures r.Ok? ==> r.value.Node? && UnitWeighted(r.value) && r.value.weight == |Leaves(r.value)|
    ensures IsPairs(Tuple(root)) ==> r.Ok? && ToTuple(r.value) == Tuple(root)
  {
    if |root| < 2 then Err(ChildError)
    else
      assert IsPairs(Tuple(root)) ==> Convertible(Tuple(root)) by {
        if IsPairs(Tuple(root)) {
          PairsRoundTrip(Tuple(root));
        }
      }
      var left := FromValue(root[0]);
      if left.Err? then Err(left.error)
      else
        var right := FromValue(root[1]);
        if right.Err? then Err(right.error)
        else
          var node := Node(left.value.weight + right.value.weight, left.value, right.value);
          assert UnitWeighted(node) && node.weight == |Leaves(node)| by {
            UnitWeightIsLeafCount(node);
          }
          assert IsPairs(Tuple(root)) ==> ToTuple(node) == Tuple(root) by {
            if IsPairs(Tuple(root)) {
              PairsRoundTrip(Tuple(root));
            }
          }
          Ok(node)
  }

  /**
   * `to_tuple` then `from_tuple`: a binary node comes back with the same
   * shape and leaf values, every leaf reweighted to 1.
   */
  lemma BinTupleRoundTrip<T>(t: Tree<T>)
    requires t.Node?
    ensures ToTuple(t).Tuple? && BinFromTuple(ToTuple(t).items) == Ok(Unweighted(t))
  {
    PairPartsRoundTrip(t.left, t.right);
    assert ToTuple(t).items == [ToTuple(t.left), ToTuple(t.right)];
  }

  /** The pair of two parts' tuples rebuilds as the sum of the two parts, reweighted. */
  lemma PairPartsRoundTrip<T>(a: Tree<T>, b: Tree<T>)
    ensures BinFromTuple([ToTuple(a), ToTuple(b)]) == Ok(Add(Unweighted(a), Unweighted(b)))
  {
    TupleRoundTrip(a);
    TupleRoundTrip(b);
    PairOfParts(ToTuple(a), ToTuple(b), Unweighted(a), Unweighted(b));
  }

  /** Two parts that each rebuild give the node of the two. */
  lemma PairOfParts<T>(l: Value<T>, r: Value<T>, x: Tree<T>, y: Tree<T>)
    requires FromValue(l) == Ok(x) && FromValue(r) == Ok(y)
    ensures BinFromTuple([l, r]) == Ok(Add(x, y))
  {
    var items := [l, r];
    assert items[0] == l && items[1] == r;
  }

  /**
   * `BinNode.code(call)`: the left part's calls from "0", then the right
   * part's from "1". One call per leaf, in leaf order, each code the
   * non-empty '0'/'1' path to its leaf, no code a prefix of another.
   */
  function BinCode<T>(t: Tree<T>): (calls: seq<(string, T)>)
    requires t.Node?
    ensures |calls| == |Leaves(t)|
    ensures forall i :: 0 <= i < |calls| ==>
      calls[i].1 == Leaves(t)[i].1 && calls[i].0 != [] && Walk(t, calls[i].0) == Some(calls[i].1)
    ensures PrefixFree(calls)
  {
    var calls := CodeCalls(t.left, "0") + CodeCalls(t.right, "1");
    assert "" + "0" == "0" && "" + "1" == "1";
    assert calls == CodeCalls(t, "");
    assert forall i :: 0 <= i < |calls| ==> Walk(t, calls[i].0) == Some(calls[i].1) by {
      forall i | 0 <= i < |calls| ensures Walk(t, calls[i].0) == Some(calls[i].1) {
        CodeIsPath(t, "", i);
        assert calls[i].0[0..] == calls[i].0;
      }
    }
    assert PrefixFree(calls) by {
      CodesPrefixFree(t, "");
    }
    calls
  }

  /**
   * `layers` on a binary node: start from `[[]]` and let `__layer__` fill
   * in from layer 0. Layer `k` lists the parts `k` levels below the root,
   * left to right, and there are as many layers as `depth` (`__depth__(1)`)
   * says.
   */
  method BinLayers<T>(t: Tree<T>) returns (layers: seq<seq<Tree<T>>>)
    requires t.Node?
    ensures |layers| == DepthFrom(t, 1)
    ensures forall k :: 0 <= k < |layers| ==> layers[k] == LevelParts(t, k)
  {
    layers := SetLayer(t, [[]], 0);
    forall k | 0 <= k < |layers| ensures layers[k] == LevelParts(t, k) {
      assert LayerAt(layers, k) == LayerAt([[]], k) + PartsAt(t, 0, k);
    }
  }

  /**
   * `huff_tree(iterable)`: count the items into a `defaultdict`, raise
   * `ChildError` for fewer than two distinct items, otherwise make a leaf
   * `BinLeaf(count, item)` per entry and merge greedily. The root weighs as
   * much as the input is long and holds each distinct item once, with its
   * count.
   */
  method HuffTree<T(==)>(xs: seq<T>) returns (r: Result<Tree<T>>, ghost run: seq<Merge<T>>)
    ensures r.Err? <==> |Firsts(xs)| < 2
    ensures r.Err? ==> r.error == ChildError
    ensures r.Ok? ==>
      r.value.Node? && WellWeighted(r.value) && r.value.weight == |xs| &&
      multiset(Leaves(r.value)) == multiset(Swapped(Entries(xs)))
    ensures r.Ok? ==>
      |run| == |Firsts(xs)| - 1 && GreedyRun(multiset(LeafParts(Entries(xs))), run) &&
      After(multiset(LeafParts(Entries(xs))), run) == multiset{r.value}
  {
    var entropy := Tally(xs);
    if |entropy| < 2 {
      return Err(ChildError), [];
    }
    var stack := LeafParts(entropy);
    LeafPartsMass(entropy);
    CountsSumToLength(xs);
    var root;
    root, run := HuffMerge(stack);
    r := Ok(root);
  }
}
