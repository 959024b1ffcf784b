/**
 * The binary Huffman tree shared by huffman/huff.py (`Leaf`/`Node`),
 * pytree/pytree.py (`BinLeaf`/`BinNode`) and huffman/huff.mjs: a part is a
 * weighted leaf holding a value, or a weighted node with a left and a right
 * part. Also the nested tuples the Python trees convert to and from.
 */
module BinTree {
  import opened Results
  import opened CodeTable
  import opened Bits

  datatype Tree<T> = Leaf(weight: int, value: T) | Node(weight: int, left: Tree<T>, right: Tree<T>)

  function Max(a: int, b: int): int { if a < b then b else a }

  /** Every node weighs exactly as much as its two parts together. */
  predicate WellWeighted<T>(t: Tree<T>) {
    match t
    case Leaf(_, _) => true
    case Node(w, l, r) => w == l.weight + r.weight && WellWeighted(l) && WellWeighted(r)
  }

  /** The (weight, value) of every leaf, left to right. */
  function Leaves<T>(t: Tree<T>): (ls: seq<(int, T)>)
    ensures |ls| >= 1
  {
    match t
    case Leaf(w, v) => [(w, v)]
    case Node(_, l, r) => Leaves(l) + Leaves(r)
  }

  function SumWeights<T>(ls: seq<(int, T)>): int {
    if ls == [] then 0 else SumWeights(ls[..|ls| - 1]) + ls[|ls| - 1].0
  }

  lemma {:induction false} SumWeightsConcat<T>(a: seq<(int, T)>, b: seq<(int, T)>)
    ensures SumWeights(a + b) == SumWeights(a) + SumWeights(b)
    decreases |b|
  {
    if b == [] {
      assert a + b == a;
    } else {
      assert (a + b)[..|a + b| - 1] == a + b[..|b| - 1];
      SumWeightsConcat(a, b[..|b| - 1]);
    }
  }

  /** A well-weighted part weighs as much as all its leaves together. */
  lemma {:induction false} WeightIsLeafSum<T>(t: Tree<T>)
    requires WellWeighted(t)
    ensures t.weight == SumWeights(Leaves(t))
  {
    match t
    case Leaf(w, v) =>
      assert SumWeights([(w, v)]) == SumWeights<T>([]) + w;
    case Node(_, l, r) =>
      WeightIsLeafSum(l);
      WeightIsLeafSum(r);
      SumWeightsConcat(Leaves(l), Leaves(r));
  }

  /**
   * `a + b`: a new node over the two parts, in operand order. It is well
   * weighted when its parts are, and its leaves are theirs, left then right.
   */
  function Add<T>(a: Tree<T>, b: Tree<T>): (n: Tree<T>)
    ensures n.Node? && n.left == a && n.right == b
    ensures WellWeighted(n) <==> WellWeighted(a) && WellWeighted(b)
    ensures Leaves(n) == Leaves(a) + Leaves(b)
  {
    Node(a.weight + b.weight, a, b)
  }

  /** huff.py `__len__`: the number of leaves. */
  function Len<T>(t: Tree<T>): (n: nat)
    ensures n == |Leaves(t)|
  {
    match t
    case Leaf(_, _) => 1
    case Node(_, l, r) => Len(l) + Len(r)
  }

  /** pytree `BinNode.__len__`: every node and leaf, which is twice the leaves less one. */
  function Size<T>(t: Tree<T>): (n: nat)
    ensures n == 2 * |Leaves(t)| - 1
  {
    match t
    case Leaf(_, _) => 1
    case Node(_, l, r) => Size(l) + Size(r) + 1
  }

  // ---------------------------------------------------------------- paths

  /** Follow a '0'/'1' path from the root; the value of the leaf it ends on, if any. */
  function Walk<T>(t: Tree<T>, path: string): Option<T> {
    match t
    case Leaf(_, v) => if path == [] then Some(v) else None
    case Node(_, l, r) =>
      if path == [] then None
      else if path[0] == '0' then Walk(l, path[1..])
      else if path[0] == '1' then Walk(r, path[1..])
      else None
  }

  /** The number of edges on the longest root-to-leaf path. */
  function Height<T>(t: Tree<T>): nat {
    match t
    case Leaf(_, _) => 0
    case Node(_, l, r) => 1 + Max(Height(l), Height(r))
  }

  /** No root-to-leaf path is longer than the height. */
  lemma {:induction false} PathWithinHeight<T>(t: Tree<T>, path: string)
    requires Walk(t, path).Some?
    ensures |path| <= Height(t)
  {
    match t
    case Leaf(_, _) =>
    case Node(_, l, r) =>
      if path[0] == '0' {
        PathWithinHeight(l, path[1..]);
      } else {
        PathWithinHeight(r, path[1..]);
      }
  }

  /** Some root-to-leaf path is as long as the height. */
  lemma {:induction false} DeepestPath<T>(t: Tree<T>) returns (path: string)
    ensures Walk(t, path).Some? && |path| == Height(t)
  {
    match t
    case Leaf(_, _) =>
      path := "";
    case Node(_, l, r) =>
      if Height(l) >= Height(r) {
        var p := DeepestPath(l);
        path := "0" + p;
        assert path[1..] == p;
      } else {
        var p := DeepestPath(r);
        path := "1" + p;
        assert path[1..] == p;
      }
  }

  /**
   * `__depth__(offset)`: a leaf answers its offset, a node the larger answer
   * of its parts one level further down; that is the offset plus the height.
   */
  function DepthFrom<T>(t: Tree<T>, offset: int): (d: int)
    ensures d == offset + Height(t)
  {
    match t
    case Leaf(_, _) => offset
    case Node(_, l, r) => Max(DepthFrom(l, offset + 1), DepthFrom(r, offset + 1))
  }

  // ---------------------------------------------------------------- layers

  /** The parts at distance `k` from the root, left to right. */
  function LevelParts<T>(t: Tree<T>, k: nat): seq<Tree<T>> {
    if k == 0 then [t]
    else match t
      case Leaf(_, _) => []
      case Node(_, l, r) => LevelParts(l, k - 1) + LevelParts(r, k - 1)
  }

  lemma {:induction false} LevelPartsBeyond<T>(t: Tree<T>, k: nat)
    requires k > Height(t)
    ensures LevelParts(t, k) == []
  {
    match t
    case Leaf(_, _) =>
    case Node(_, l, r) =>
      LevelPartsBeyond(l, k - 1);
      LevelPartsBeyond(r, k - 1);
  }

  /** The layer `k` of a layer list, empty past its end. */
  function LayerAt<T>(layers: seq<seq<Tree<T>>>, k: nat): seq<Tree<T>> {
    if k < |layers| then layers[k] else []
  }

  /** The parts of `t` that belong in layer `k` when `t` itself sits at `offset`. */
  function PartsAt<T>(t: Tree<T>, offset: nat, k: nat): seq<Tree<T>> {
    if k < offset then [] else LevelParts(t, k - offset)
  }

  /**
   * `__set_layer__(layers, offset)` (pytree's `__layer__`): append the part
   * to its layer, open the next layer when it is the last one, and recurse
   * into the parts one layer down. Every layer ends up extended by exactly
   * the parts of `t` at that distance, left to right.
   */
  method SetLayer<T>(t: Tree<T>, layers: seq<seq<Tree<T>>>, offset: nat) returns (out: seq<seq<Tree<T>>>)
    requires offset < |layers|
    ensures |out| == Max(|layers|, offset + Height(t) + 1)
    ensures forall k: nat :: LayerAt(out, k) == LayerAt(layers, k) + PartsAt(t, offset, k)
    decreases t
  {
    out := layers[offset := layers[offset] + [t]];
    if t.Node? {
      ghost var put := out;
      if offset + 1 == |out| {
        out := out + [[]];
      }
      ghost var first := out;
      OwnLayer(t, layers, offset, put, first);
      out := SetLayer(t.left, out, offset + 1);
      ghost var mid := out;
      out := SetLayer(t.right, out, offset + 1);
      forall k: nat ensures LayerAt(out, k) == LayerAt(layers, k) + PartsAt(t, offset, k) {
        ChildLayers(t, offset, k, LayerAt(layers, k), LayerAt(first, k), LayerAt(mid, k), LayerAt(out, k));
      }
    } else {
      forall k: nat ensures LayerAt(out, k) == LayerAt(layers, k) + PartsAt(t, offset, k) {
      }
    }
  }

  /** The first step of `SetLayer` on a node: the node joins its own layer, and the next one exists. */
  lemma OwnLayer<T>(t: Tree<T>, layers: seq<seq<Tree<T>>>, offset: nat, put: seq<seq<Tree<T>>>,
                    first: seq<seq<Tree<T>>>)
    requires offset < |layers| && put == layers[offset := layers[offset] + [t]]
    requires first == if offset + 1 == |put| then put + [[]] else put
    ensures |first| == Max(|layers|, offset + 2)
    ensures forall k: nat :: LayerAt(first, k) == LayerAt(layers, k) + (if k == offset then [t] else [])
  {
  }

  /** The two recursive steps of `SetLayer` on a node add its parts below it, layer by layer. */
  lemma ChildLayers<T>(t: Tree<T>, offset: nat, k: nat, was: seq<Tree<T>>,
                       first: seq<Tree<T>>, mid: seq<Tree<T>>, out: seq<Tree<T>>)
    requires t.Node?
    requires first == was + (if k == offset then [t] else [])
    requires mid == first + PartsAt(t.left, offset + 1, k)
    requires out == mid + PartsAt(t.right, offset + 1, k)
    ensures out == was + PartsAt(t, offset, k)
  {
    if k > offset {
      assert PartsAt(t, offset, k) == PartsAt(t.left, offset + 1, k) + PartsAt(t.right, offset + 1, k);
    } else if k == offset {
      assert PartsAt(t, offset, k) == [t];
    }
  }

  // ---------------------------------------------------------------- codes

  /**
   * `__add_code__(callable, code)` / `__code__(call, code)` / `setBits`: the
   * calls made, in order, one per leaf, each with its value and the code
   * given so far extended by '0' for every left turn and '1' for every right
   * turn.
   */
  function CodeCalls<T>(t: Tree<T>, code: string): (calls: seq<(string, T)>)
    ensures |calls| == |Leaves(t)|
    ensures forall i :: 0 <= i < |calls| ==>
      calls[i].1 == Leaves(t)[i].1 && code <= calls[i].0 && (t.Node? ==> |code| < |calls[i].0|)
  {
    match t
    case Leaf(_, v) => [(code, v)]
    case Node(_, l, r) => CodeCalls(l, code + "0") + CodeCalls(r, code + "1")
  }

  /** Each call's code is the given code followed by the path from `t` to that leaf. */
  lemma {:induction false} CodeIsPath<T>(t: Tree<T>, code: string, i: nat)
    requires i < |CodeCalls(t, code)|
    ensures var c := CodeCalls(t, code)[i];
      Walk(t, c.0[|code|..]) == Some(c.1)
  {
    match t
    case Leaf(_, _) =>
    case Node(_, l, r) =>
      var a, b := CodeCalls(l, code + "0"), CodeCalls(r, code + "1");
      var c := CodeCalls(t, code)[i];
      if i < |a| {
        CodeIsPath(l, code + "0", i);
        assert c == a[i];
        assert c.0[|code|] == '0' by { assert (code + "0")[|code|] == '0'; }
        assert c.0[|code|..][1..] == c.0[|code| + 1..];
      } else {
        CodeIsPath(r, code + "1", i - |a|);
        assert c == b[i - |a|];
        assert c.0[|code|] == '1' by { assert (code + "1")[|code|] == '1'; }
        assert c.0[|code|..][1..] == c.0[|code| + 1..];
      }
  }

  /** Codes built from a bit string are bit strings. */
  lemma {:induction false} CodesAreBits<T>(t: Tree<T>, code: string)
    requires IsBits(code)
    ensures forall i :: 0 <= i < |CodeCalls(t, code)| ==> IsBits(CodeCalls(t, code)[i].0)
  {
    match t
    case Leaf(_, _) =>
    case Node(_, l, r) =>
      CodesAreBits(l, code + "0");
      CodesAreBits(r, code + "1");
      var a, b := CodeCalls(l, code + "0"), CodeCalls(r, code + "1");
      assert forall i :: 0 <= i < |a| + |b| ==> CodeCalls(t, code)[i] == if i < |a| then a[i] else b[i - |a|];
  }

  /** No code of a part is a prefix of another one of its codes. */
  lemma {:induction false} CodesPrefixFree<T>(t: Tree<T>, code: string)
    ensures PrefixFree(CodeCalls(t, code))
  {
    match t
    case Leaf(_, _) =>
    case Node(_, l, r) =>
      var a, b := CodeCalls(l, code + "0"), CodeCalls(r, code + "1");
      CodesPrefixFree(l, code + "0");
      CodesPrefixFree(r, code + "1");
      forall i, j | 0 <= i < |a| && 0 <= j < |b|
        ensures !(a[i].0 <= b[j].0) && !(b[j].0 <= a[i].0)
      {
        assert a[i].0[|code|] == '0' by { assert (code + "0")[|code|] == '0'; }
        assert b[j].0[|code|] == '1' by { assert (code + "1")[|code|] == '1'; }
      }
      PrefixFreeConcat(a, b);
  }

  /** Leaf values that are pairwise different. */
  ghost predicate DistinctLeafValues<T>(t: Tree<T>) {
    forall i, j :: 0 <= i < |Leaves(t)| && 0 <= j < |Leaves(t)| && i != j ==> Leaves(t)[i].1 != Leaves(t)[j].1
  }

  /**
   * For a root node with distinct leaf values, the maps filled by the code
   * calls from the empty code are inverse and decodable: every code is
   * non-empty and no code is a prefix of another.
   */
  lemma RootTable<T>(t: Tree<T>)
    requires t.Node? && DistinctLeafValues(t)
    ensures var calls := CodeCalls(t, "");
      Inverse(EncodeMap(calls), DecodeMap(calls)) && Decodable(EncodeMap(calls), DecodeMap(calls))
  {
    var calls := CodeCalls(t, "");
    CodesPrefixFree(t, "");
    assert DistinctValues(calls);
    TableInverse(calls);
    TableDecodable(calls);
  }

  // ---------------------------------------------------------------- tuples

  /** A Python value as the tuple conversions see it: a tuple of values, or anything else. */
  datatype Value<T> = Atom(item: T) | Tuple(items: seq<Value<T>>)

  /** Nested pairs: every tuple has exactly two items. */
  predicate IsPairs<T>(v: Value<T>) {
    match v
    case Atom(_) => true
    case Tuple(items) => |items| == 2 && IsPairs(items[0]) && IsPairs(items[1])
  }

  /** Every tuple has at least two items (any further ones are never looked at). */
  predicate Convertible<T>(v: Value<T>) {
    match v
    case Atom(_) => true
    case Tuple(items) => |items| >= 2 && Convertible(items[0]) && Convertible(items[1])
  }

  /** `to_tuple`: a leaf becomes its value, a node the pair of its parts' tuples. */
  function ToTuple<T>(t: Tree<T>): (v: Value<T>)
    ensures IsPairs(v) && (t.Node? <==> v.Tuple?)
  {
    match t
    case Leaf(_, x) => Atom(x)
    case Node(_, l, r) => Tuple([ToTuple(l), ToTuple(r)])
  }

  /** Every leaf weighs 1 and every node the sum of its parts. */
  predicate UnitWeighted<T>(t: Tree<T>) {
    match t
    case Leaf(w, _) => w == 1
    case Node(w, l, r) => w == l.weight + r.weight && UnitWeighted(l) && UnitWeighted(r)
  }

  lemma {:induction false} UnitWeightIsLeafCount<T>(t: Tree<T>)
    requires UnitWeighted(t)
    ensures WellWeighted(t) && t.weight == |Leaves(t)|
  {
    match t
    case Leaf(_, _) =>
    case Node(_, l, r) =>
      UnitWeightIsLeafCount(l);
      UnitWeightIsLeafCount(r);
  }

  /**
   * `__from_tuple__`: a tuple becomes the sum of its first two items'
   * parts, anything else a leaf of weight 1. Indexing a tuple of fewer than
   * two items raises `IndexError`.
   */
  function FromValue<T>(v: Value<T>): (r: Result<Tree<T>>)
    ensures r.Ok? <==> Convertible(v)
    ensures r.Err? ==> r.error == IndexError
    ensures r.Ok? ==> UnitWeighted(r.value) && (r.value.Node? <==> v.Tuple?)
  {
    match v
    case Atom(x) => Ok(Leaf(1, x))
    case Tuple(items) =>
      if |items| < 2 then Err(IndexError)
      else
        var l := FromValue(items[0]);
        if l.Err? then l
        else
          var r := FromValue(items[1]);
          if r.Err? then r else Ok(Add(l.value, r.value))
  }

  /** The same tree with its leaves reweighted to 1 and its nodes to the sum of their parts. */
  function Unweighted<T>(t: Tree<T>): (u: Tree<T>)
    ensures UnitWeighted(u)
  {
    match t
    case Leaf(_, x) => Leaf(1, x)
    case Node(_, l, r) => Add(Unweighted(l), Unweighted(r))
  }

  /** Reweighting changes neither the code calls nor the shape. */
  lemma {:induction false} UnweightedCodes<T>(t: Tree<T>, code: string)
    ensures CodeCalls(Unweighted(t), code) == CodeCalls(t, code)
    ensures ToTuple(Unweighted(t)) == ToTuple(t) && Height(Unweighted(t)) == Height(t)
  {
    match t
    case Leaf(_, _) =>
    case Node(_, l, r) =>
      UnweightedCodes(l, code + "0");
      UnweightedCodes(r, code + "1");
  }

  /** A tree converted to a tuple and back is the same tree, reweighted. */
  lemma {:induction false} TupleRoundTrip<T>(t: Tree<T>)
    ensures FromValue(ToTuple(t)) == Ok(Unweighted(t))
  {
    match t
    case Leaf(_, _) =>
    case Node(_, l, r) =>
      TupleRoundTrip(l);
      TupleRoundTrip(r);
  }

  /** Nested pairs converted to a tree and back are the same nested pairs. */
  lemma {:induction false} PairsRoundTrip<T>(v: Value<T>)
    requires IsPairs(v)
    ensures Convertible(v) && ToTuple(FromValue(v).value) == v
  {
    match v
    case Atom(_) =>
    case Tuple(items) =>
      PairsRoundTrip(items[0]);
      PairsRoundTrip(items[1]);
      assert ToTuple(FromValue(v).value).items == items;
  }

  /**
   * The recursion `CodeMap.__from_tuple__` (and the one inside
   * `__decode__`) runs directly on a tuple: the calls a tree built from the
   * tuple would make, or `IndexError` on a tuple of fewer than two items.
   */
  function TupleCalls<T>(v: Value<T>, code: string): (r: Result<seq<(string, T)>>)
    ensures r.Ok? <==> Convertible(v)
    ensures r.Ok? ==> r.value == CodeCalls(FromValue(v).value, code)
    ensures r.Err? ==> r.error == IndexError
  {
    match v
    case Atom(x) => Ok([(code, x)])
    case Tuple(items) =>
      if |items| < 2 then Err(IndexError)
      else
        var a := TupleCalls(items[0], code + "0");
        if a.Err? then a
        else
          var b := TupleCalls(items[1], code + "1");
          if b.Err? then b else Ok(a.value + b.value)
  }

  /** The calls made from a tree's tuple are the calls the tree itself makes. */
  lemma TupleCallsOfTree<T>(t: Tree<T>, code: string)
    ensures TupleCalls(ToTuple(t), code) == Ok(CodeCalls(t, code))
  {
    TupleRoundTrip(t);
    UnweightedCodes(t, code);
  }
}
