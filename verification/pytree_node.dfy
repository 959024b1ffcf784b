/**
 * pytree/pytree.py, multi-child half: `Leaf` and `Node`, where a node is a
 * Python list of any number of children that the operators `<<`, `>>` and
 * `|` change in place. A `Node` object is the class below; a finished
 * part, as a parent holds it, is the value `Part`.
 */
module PyNode {
  import opened Results
  import opened CodeTable
  import BinTree

  /** A part as a value: a leaf, or a node (`Branch`) with its weight and children. */
  datatype Part<T> = Leaf(weight: int, value: T) | Branch(weight: int, children: seq<Part<T>>)

  /** The weight of a list of parts, added up. */
  function TotalWeight<T>(cs: seq<Part<T>>): int {
    if cs == [] then 0 else TotalWeight(cs[..|cs| - 1]) + cs[|cs| - 1].weight
  }

  lemma {:induction false} TotalWeightConcat<T>(a: seq<Part<T>>, b: seq<Part<T>>)
    ensures TotalWeight(a + b) == TotalWeight(a) + TotalWeight(b)
    decreases |b|
  {
    if b == [] {
      assert a + b == a;
    } else {
      assert (a + b)[..|a + b| - 1] == a + b[..|b| - 1];
      TotalWeightConcat(a, b[..|b| - 1]);
    }
  }

  /** Every node weighs what its children weigh together. */
  predicate Balanced<T>(p: Part<T>) {
    match p
    case Leaf(_, _) => true
    case Branch(w, cs) => w == TotalWeight(cs) && forall i :: 0 <= i < |cs| ==> Balanced(cs[i])
  }

  // ---------------------------------------------------------------- the Node object

  /**
   * A `Node` object: a weight and the list of children it extends. The
   * operators change both in place and leave every other child as it was;
   * each keeps a node balanced when it was balanced before.
   */
  class Node<T> {
    var weight: int
    var children: seq<Part<T>>

    /** `Node(weight, childs)`: the weight is taken as given, not computed. */
    constructor (weight: int, childs: seq<Part<T>>)
      ensures this.weight == weight && children == childs
    {
      this.weight := weight;
      children := childs;
    }

    /** The node as a value, as its parent or a traversal sees it. */
    function Snapshot(): Part<T>
      reads this
    {
      Branch(weight, children)
    }

    /** `self << child`: insert `child` on the right; the weight grows by its weight. */
    method Append(child: Part<T>)
      modifies this
      ensures children == old(children) + [child]
      ensures weight == old(weight) + child.weight
      ensures old(weight == TotalWeight(children)) ==> weight == TotalWeight(children)
    {
      TotalWeightConcat(children, [child]);
      children := children + [child];
      weight := weight + child.weight;
    }

    /** `self >> child`: insert `child` on the left; the weight grows by its weight. */
    method Prepend(child: Part<T>)
      modifies this
      ensures children == [child] + old(children)
      ensures weight == old(weight) + child.weight
      ensures old(weight == TotalWeight(children)) ==> weight == TotalWeight(children)
    {
      TotalWeightConcat([child], children);
      assert TotalWeight([child]) == child.weight by {
        assert [child][..0] == [];
      }
      children := [child] + children;
      weight := weight + child.weight;
    }

    /**
     * `self | node`: extend with the other node's children; the weight
     * grows by the other node's weight (also when `node` is `self`).
     */
    method Extend(node: Node<T>)
      modifies this
      ensures children == old(children) + old(node.children)
      ensures weight == old(weight) + old(node.weight)
      ensures old(weight == TotalWeight(children) && node.weight == TotalWeight(node.children)) ==>
        weight == TotalWeight(children)
    {
      TotalWeightConcat(children, node.children);
      children := children + node.children;
      weight := weight + node.weight;
    }

    /**
     * `layers`: start from `[[]]` and let `__layer__` fill in from layer 0.
     * Layer `k` lists the parts `k` levels below this node, left to right;
     * when `depth` has an answer, it is the number of layers.
     */
    method Layers() returns (layers: seq<seq<Part<T>>>)
      ensures |layers| == Height(Snapshot()) + 1
      ensures forall k :: 0 <= k < |layers| ==> layers[k] == LevelParts(Snapshot(), k)
      ensures DepthFrom(Snapshot(), 1).Ok? ==> |layers| == DepthFrom(Snapshot(), 1).value
    {
      layers := SetLayer(Snapshot(), [[]], 0);
      forall k | 0 <= k < |layers| ensures layers[k] == LevelParts(Snapshot(), k) {
        assert LayerAt(layers, k) == LayerAt([[]], k) + PartsAt(Snapshot(), 0, k);
      }
    }
  }

  /** `a + b` on two multi-child parts: a new node over the two, in operand order. */
  method Plus<T>(a: Part<T>, b: Part<T>) returns (n: Node<T>)
    ensures fresh(n) && n.children == [a, b] && n.weight == a.weight + b.weight
  {
    n := new Node(a.weight + b.weight, [a, b]);
  }

  // ---------------------------------------------------------------- leaves and len

  /** The (weight, value) of every leaf, left to right. */
  function Leaves<T>(p: Part<T>): seq<(int, T)> {
    match p
    case Leaf(w, x) => [(w, x)]
    case Branch(_, cs) => ChildLeaves(cs)
  }

  function ChildLeaves<T>(cs: seq<Part<T>>): seq<(int, T)> {
    if cs == [] then [] else ChildLeaves(cs[..|cs| - 1]) + Leaves(cs[|cs| - 1])
  }

  /** Every part of the tree, each node before its children, left to right. */
  function Parts<T>(p: Part<T>): seq<Part<T>> {
    match p
    case Leaf(_, _) => [p]
    case Branch(_, cs) => [p] + ChildParts(cs)
  }

  function ChildParts<T>(cs: seq<Part<T>>): seq<Part<T>> {
    if cs == [] then [] else ChildParts(cs[..|cs| - 1]) + Parts(cs[|cs| - 1])
  }

  /**
   * `Node.__len__` as written: each child's length plus the number of
   * children, and 1 for a leaf.
   */
  function LenAsWritten<T>(p: Part<T>): (n: int)
    ensures n >= |Leaves(p)|
  {
    match p
    case Leaf(_, _) => 1
    case Branch(_, cs) => ChildLens(cs) + |cs|
  }

  function ChildLens<T>(cs: seq<Part<T>>): (n: int)
    ensures n >= |ChildLeaves(cs)|
  {
    if cs == [] then 0 else ChildLens(cs[..|cs| - 1]) + LenAsWritten(cs[|cs| - 1])
  }

  /**
   * The length `__len__` promises, and `BinNode.__len__` computes for the
   * binary tree: one for the part itself plus its children's lengths. It is
   * the number of parts of the tree.
   */
  function Size<T>(p: Part<T>): (n: nat)
    ensures n == |Parts(p)|
  {
    match p
    case Leaf(_, _) => 1
    case Branch(_, cs) => 1 + ChildSizes(cs)
  }

  function ChildSizes<T>(cs: seq<Part<T>>): (n: nat)
    ensures n == |ChildParts(cs)|
  {
    if cs == [] then 0 else ChildSizes(cs[..|cs| - 1]) + Size(cs[|cs| - 1])
  }

  /**
   * The length as written counts every part and then every leaf but one
   * once more: it is off by the number of leaves less one.
   */
  lemma {:induction false} LenOvercounts<T>(p: Part<T>)
    ensures LenAsWritten(p) == Size(p) + |Leaves(p)| - 1
  {
    match p
    case Leaf(_, _) =>
    case Branch(_, cs) =>
      ChildLensOvercount(cs);
  }

  lemma {:induction false} ChildLensOvercount<T>(cs: seq<Part<T>>)
    ensures ChildLens(cs) + |cs| == ChildSizes(cs) + |ChildLeaves(cs)|
  {
    if cs != [] {
      var n := |cs| - 1;
      ChildLensOvercount(cs[..n]);
      LenOvercounts(cs[n]);
    }
  }

  /** A node over two leaves: three parts, and a length of four as written. */
  lemma TwoLeavesLenFour()
    ensures var p := Branch(2, [Leaf(1, 'a'), Leaf(1, 'b')]);
      LenAsWritten(p) == 4 && Size(p) == 3
  {
    var p := Branch(2, [Leaf(1, 'a'), Leaf(1, 'b')]);
    LenOvercounts(p);
    assert Leaves(p) == [(1, 'a'), (1, 'b')] by {
      assert p.children[..1] == [Leaf(1, 'a')];
      assert p.children[..1][..0] == [];
    }
  }

  // ---------------------------------------------------------------- tuples

  /**
   * What `Node.__from_tuple__` makes of a value: a leaf of weight 1 for
   * anything but a tuple, and for a tuple a node with one child per item
   * (none for the empty tuple). Every node weighs as many leaves as it holds.
   */
  function Build<T>(v: BinTree.Value<T>): (p: Part<T>)
    ensures Balanced(p) && p.weight == |Leaves(p)|
    ensures v.Tuple? <==> p.Branch?
  {
    match v
    case Atom(x) => Leaf(1, x)
    case Tuple(items) =>
      var cs := BuildAll(items);
      assert TotalWeight(cs) == |ChildLeaves(cs)| by {
        LeafWeights(cs);
      }
      Branch(TotalWeight(cs), cs)
  }

  function BuildAll<T>(items: seq<BinTree.Value<T>>): (cs: seq<Part<T>>)
    ensures |cs| == |items| && forall i :: 0 <= i < |items| ==> cs[i] == Build(items[i])
  {
    seq(|items|, i requires 0 <= i < |items| => Build(items[i]))
  }

  /** Parts that each weigh their leaf count weigh, together, their leaves together. */
  lemma {:induction false} LeafWeights<T>(cs: seq<Part<T>>)
    requires forall i :: 0 <= i < |cs| ==> cs[i].weight == |Leaves(cs[i])|
    ensures TotalWeight(cs) == |ChildLeaves(cs)|
  {
    if cs != [] {
      LeafWeights(cs[..|cs| - 1]);
    }
  }

  /**
   * `Node.__from_tuple__(value)`: a leaf for a non-tuple; for a tuple, a
   * fresh `Node(0, ())` and then `node << __from_tuple__(child)` for each
   * item in order.
   */
  method FromValue<T>(v: BinTree.Value<T>) returns (p: Part<T>)
    ensures p == Build(v)
    decreases v
  {
    match v
    case Atom(x) =>
      p := Leaf(1, x);
    case Tuple(items) =>
      var node := new Node(0, []);
      for i := 0 to |items|
        invariant node.children == BuildAll(items[..i])
        invariant node.weight == TotalWeight(node.children)
      {
        var child := FromValue(items[i]);
        assert BuildAll(items[..i + 1]) == BuildAll(items[..i]) + [child];
        node.Append(child);
      }
      assert items[..|items|] == items;
      p := node.Snapshot();
  }

  /**
   * `Node.from_tuple(root)`: `ChildError` for fewer than two items;
   * otherwise a fresh node with one child per item, built as above.
   */
  method FromTuple<T>(root: seq<BinTree.Value<T>>) returns (r: Result<Node<T>>)
    ensures r.Err? <==> |root| < 2
    ensures r.Err? ==> r.error == ChildError
    ensures r.Ok? ==> fresh(r.value) && r.value.Snapshot() == Build(BinTree.Tuple(root))
  {
    if |root| < 2 {
      return Err(ChildError);
    }
    var node := new Node(0, []);
    for i := 0 to |root|
      invariant fresh(node)
      invariant node.children == BuildAll(root[..i])
      invariant node.weight == TotalWeight(node.children)
    {
      var child := FromValue(root[i]);
      assert BuildAll(root[..i + 1]) == BuildAll(root[..i]) + [child];
      node.Append(child);
    }
    assert root[..|root|] == root;
    r := Ok(node);
  }

  /** `to_tuple`: a leaf becomes its value, a node the tuple of its children's tuples. */
  function ToTuple<T>(p: Part<T>): (v: BinTree.Value<T>)
    ensures v.Tuple? <==> p.Branch?
  {
    match p
    case Leaf(_, x) => BinTree.Atom(x)
    case Branch(_, cs) => BinTree.Tuple(ToTupleAll(cs))
  }

  function ToTupleAll<T>(cs: seq<Part<T>>): (vs: seq<BinTree.Value<T>>)
    ensures |vs| == |cs| && forall i :: 0 <= i < |cs| ==> vs[i] == ToTuple(cs[i])
  {
    seq(|cs|, i requires 0 <= i < |cs| => ToTuple(cs[i]))
  }

  /** Any value built into parts and turned back into a tuple is the value it was. */
  lemma {:induction false} TupleRoundTrip<T>(v: BinTree.Value<T>)
    ensures ToTuple(Build(v)) == v
  {
    match v
    case Atom(_) =>
    case Tuple(items) =>
      forall i | 0 <= i < |items| ensures ToTuple(Build(items[i])) == items[i] {
        TupleRoundTrip(items[i]);
      }
      assert ToTupleAll(BuildAll(items)) == items;
  }

  /** The same tree with every leaf reweighted to 1 and every node to the sum of its children. */
  function Reweighted<T>(p: Part<T>): (q: Part<T>)
    ensures Balanced(q) && q.weight == |Leaves(q)|
  {
    match p
    case Leaf(_, x) => Leaf(1, x)
    case Branch(_, cs) =>
      var rs := ReweightAll(cs);
      assert TotalWeight(rs) == |ChildLeaves(rs)| by {
        LeafWeights(rs);
      }
      Branch(TotalWeight(rs), rs)
  }

  function ReweightAll<T>(cs: seq<Part<T>>): (rs: seq<Part<T>>)
    ensures |rs| == |cs| && forall i :: 0 <= i < |cs| ==> rs[i] == Reweighted(cs[i])
  {
    seq(|cs|, i requires 0 <= i < |cs| => Reweighted(cs[i]))
  }

  /** A tree turned into a tuple and built back is the same tree, reweighted. */
  lemma {:induction false} RebuildRoundTrip<T>(p: Part<T>)
    ensures Build(ToTuple(p)) == Reweighted(p)
  {
    match p
    case Leaf(_, _) =>
    case Branch(_, cs) =>
      forall i | 0 <= i < |cs| ensures Build(ToTuple(cs[i])) == Reweighted(cs[i]) {
        RebuildRoundTrip(cs[i]);
      }
      assert BuildAll(ToTupleAll(cs)) == ReweightAll(cs);
  }

  // ---------------------------------------------------------------- codes

  function DigitChar(d: nat): (c: char)
    requires d < 10
    ensures '0' <= c <= '9' && c as int - '0' as int == d
  {
    ('0' as int + d) as char
  }

  /** `str(i)`: the decimal digits of `i`. */
  function Decimal(i: nat): (s: string)
    ensures 1 <= |s| && (|s| == 1 <==> i < 10)
    ensures forall k :: 0 <= k < |s| ==> '0' <= s[k] <= '9'
  {
    if i < 10 then [DigitChar(i)] else Decimal(i / 10) + [DigitChar(i % 10)]
  }

  /** The number a string of decimal digits stands for. */
  function DigitsValue(s: string): int {
    if s == [] then 0 else DigitsValue(s[..|s| - 1]) * 10 + (s[|s| - 1] as int - '0' as int)
  }

  /** `str(i)` reads back as `i`. */
  lemma {:induction false} DecimalRoundTrip(i: nat)
    ensures DigitsValue(Decimal(i)) == i
  {
    if i >= 10 {
      DecimalRoundTrip(i / 10);
      var s := Decimal(i);
      assert s[..|s| - 1] == Decimal(i / 10);
    }
  }

  /**
   * `Node.__code__(call, code)` (the leaf's `__code__` for a leaf): one call
   * per leaf, in leaf order, with the leaf's value and the code extended by
   * `str(i)` for child `i` at every node on the way down.
   */
  function CodeCalls<T>(p: Part<T>, code: string): (calls: seq<(string, T)>)
    ensures |calls| == |Leaves(p)|
    ensures forall i :: 0 <= i < |calls| ==> calls[i].1 == Leaves(p)[i].1
    ensures forall i :: 0 <= i < |calls| ==> code <= calls[i].0 && (p.Branch? ==> |code| < |calls[i].0|)
  {
    match p
    case Leaf(_, x) => [(code, x)]
    case Branch(_, cs) => ChildCalls(cs, code)
  }

  function ChildCalls<T>(cs: seq<Part<T>>, code: string): (calls: seq<(string, T)>)
    ensures |calls| == |ChildLeaves(cs)|
    ensures forall i :: 0 <= i < |calls| ==> calls[i].1 == ChildLeaves(cs)[i].1
    ensures forall i :: 0 <= i < |calls| ==> code <= calls[i].0 && |code| < |calls[i].0|
  {
    if cs == [] then []
    else
      var n := |cs| - 1;
      var a, b := ChildCalls(cs[..n], code), CodeCalls(cs[n], code + Decimal(n));
      assert forall i :: 0 <= i < |b| ==> code <= b[i].0 && |code| < |b[i].0| by {
        forall i | 0 <= i < |b| ensures code <= b[i].0 && |code| < |b[i].0| {
          PrefixTrans(code, code + Decimal(n), b[i].0);
        }
      }
      a + b
  }

  lemma PrefixTrans(a: string, b: string, c: string)
    requires a <= b && b <= c
    ensures a <= c
  {
    assert c[..|a|] == b[..|a|];
  }

  /** `Node.code(call)`: the children's calls, child `i` from `str(i)`. */
  function Code<T>(p: Part<T>): (calls: seq<(string, T)>)
    requires p.Branch?
    ensures calls == CodeCalls(p, "")
  {
    ChildCalls(p.children, "")
  }

  /** No node has more than ten children, so every `str(i)` is one digit. */
  predicate Narrow<T>(p: Part<T>) {
    match p
    case Leaf(_, _) => true
    case Branch(_, cs) => |cs| <= 10 && forall i :: 0 <= i < |cs| ==> Narrow(cs[i])
  }

  /** In a narrow tree no code is a prefix of another. */
  lemma {:induction false} CodesPrefixFree<T>(p: Part<T>, code: string)
    requires Narrow(p)
    ensures PrefixFree(CodeCalls(p, code))
  {
    match p
    case Leaf(_, _) =>
    case Branch(_, cs) =>
      ChildCodesPrefixFree(cs, code);
  }

  /**
   * The calls of narrow children are prefix-free, and the digit right
   * after `code` in each of them is the index of a child.
   */
  lemma {:induction false} ChildCodesPrefixFree<T>(cs: seq<Part<T>>, code: string)
    requires |cs| <= 10 && forall i :: 0 <= i < |cs| ==> Narrow(cs[i])
    ensures PrefixFree(ChildCalls(cs, code))
    ensures forall i :: 0 <= i < |ChildCalls(cs, code)| ==>
      '0' <= ChildCalls(cs, code)[i].0[|code|] && (ChildCalls(cs, code)[i].0[|code|] as int) < '0' as int + |cs|
  {
    if cs != [] {
      var n := |cs| - 1;
      var a, b := ChildCalls(cs[..n], code), CodeCalls(cs[n], code + Decimal(n));
      ChildCodesPrefixFree(cs[..n], code);
      CodesPrefixFree(cs[n], code + Decimal(n));
      forall j | 0 <= j < |b| ensures b[j].0[|code|] == DigitChar(n) {
        assert (code + Decimal(n))[|code|] == DigitChar(n);
      }
      forall i, j | 0 <= i < |a| && 0 <= j < |b|
        ensures !(a[i].0 <= b[j].0) && !(b[j].0 <= a[i].0)
      {
        assert a[i].0[|code|] != b[j].0[|code|];
      }
      PrefixFreeConcat(a, b);
    }
  }

  /**
   * Following a code in a narrow tree: each digit picks the child with
   * that index, and a code that ends on a leaf finds its value.
   */
  function Walk<T>(p: Part<T>, path: string): Option<T> {
    match p
    case Leaf(_, x) => if path == [] then Some(x) else None
    case Branch(_, cs) =>
      if path == [] then None
      else
        var d := path[0] as int - '0' as int;
        if 0 <= d < |cs| then Walk(cs[d], path[1..]) else None
  }

  /** In a narrow tree every call's code, after the code given, is the path to its leaf. */
  lemma {:induction false} CodeIsPath<T>(p: Part<T>, code: string, i: nat)
    requires Narrow(p) && i < |CodeCalls(p, code)|
    ensures var c := CodeCalls(p, code)[i];
      Walk(p, c.0[|code|..]) == Some(c.1)
  {
    match p
    case Leaf(_, _) =>
    case Branch(_, cs) =>
      var j := ChildOf(cs, code, i);
      var c := CodeCalls(p, code)[i];
      assert c.0[|code|..][1..] == c.0[|code| + 1..];
  }

  /** The child a call of narrow children comes from: its digit after `code`, and the rest is the path in it. */
  lemma {:induction false} ChildOf<T>(cs: seq<Part<T>>, code: string, i: nat) returns (j: nat)
    requires |cs| <= 10 && forall k :: 0 <= k < |cs| ==> Narrow(cs[k])
    requires i < |ChildCalls(cs, code)|
    ensures var c := ChildCalls(cs, code)[i];
      j < |cs| && c.0[|code|] as int - '0' as int == j && Walk(cs[j], c.0[|code| + 1..]) == Some(c.1)
  {
    var n := |cs| - 1;
    var a, b := ChildCalls(cs[..n], code), CodeCalls(cs[n], code + Decimal(n));
    var c := ChildCalls(cs, code)[i];
    if i < |a| {
      j := ChildOf(cs[..n], code, i);
      assert c == a[i];
    } else {
      j := n;
      assert c == b[i - |a|];
      CodeIsPath(cs[n], code + Decimal(n), i - |a|);
      assert (code + Decimal(n))[|code|] == DigitChar(n);
    }
  }

  /**
   * A narrow node with distinct leaf values gets a decodable table: the two
   * maps are inverse, and every code is non-empty and free of shorter keys.
   */
  lemma NarrowTable<T>(p: Part<T>)
    requires p.Branch? && Narrow(p) && DistinctValues(CodeCalls(p, ""))
    ensures var calls := CodeCalls(p, "");
      Inverse(EncodeMap(calls), DecodeMap(calls)) && Decodable(EncodeMap(calls), DecodeMap(calls))
  {
    var calls := CodeCalls(p, "");
    CodesPrefixFree(p, "");
    TableInverse(calls);
    TableDecodable(calls);
  }

  /** Every call a child makes is among the calls its parent makes. */
  lemma {:induction false} ChildCallsHave<T>(cs: seq<Part<T>>, code: string, j: nat, c: (string, T))
    requires j < |cs| && c in CodeCalls(cs[j], code + Decimal(j))
    ensures c in ChildCalls(cs, code)
    decreases |cs|, 1
  {
    if j < |cs| - 1 {
      EarlierChildHas(cs, code, j, c);
    } else {
      LastChildHas(cs, code, c);
    }
  }

  lemma {:induction false} EarlierChildHas<T>(cs: seq<Part<T>>, code: string, j: nat, c: (string, T))
    requires j < |cs| - 1 && c in CodeCalls(cs[j], code + Decimal(j))
    ensures c in ChildCalls(cs, code)
    decreases |cs|, 0
  {
    var n := |cs| - 1;
    var front := cs[..n];
    assert front[j] == cs[j];
    ChildCallsHave(front, code, j, c);
    ChildCallsLast(cs, code);
    InEither(c, ChildCalls(front, code), CodeCalls(cs[n], code + Decimal(n)));
  }

  lemma LastChildHas<T>(cs: seq<Part<T>>, code: string, c: (string, T))
    requires cs != [] && c in CodeCalls(cs[|cs| - 1], code + Decimal(|cs| - 1))
    ensures c in ChildCalls(cs, code)
  {
    var n := |cs| - 1;
    ChildCallsLast(cs, code);
    InEither(c, ChildCalls(cs[..n], code), CodeCalls(cs[n], code + Decimal(n)));
  }

  /** The calls of the children are those of all but the last, then the last's. */
  lemma ChildCallsLast<T>(cs: seq<Part<T>>, code: string)
    requires cs != []
    ensures ChildCalls(cs, code) == ChildCalls(cs[..|cs| - 1], code) + CodeCalls(cs[|cs| - 1], code + Decimal(|cs| - 1))
  {
  }

  lemma InEither<X>(c: X, a: seq<X>, b: seq<X>)
    requires c in a || c in b
    ensures c in a + b
  {
  }

  lemma SmallDecimals()
    ensures Decimal(0) == "0" && Decimal(1) == "1" && Decimal(10) == "10"
  {
    assert Decimal(10) == Decimal(1) + [DigitChar(0)];
  }

  /**
   * With eleven children or more the decimal codes collide: the first leaf
   * of child 1 and a leaf at child 10 are both called with "10".
   */
  lemma WideCodesCollide<T>(cs: seq<Part<T>>, x: T, z: T)
    requires |cs| >= 11 && cs[1].Branch? && cs[1].children != []
    requires cs[1].children[0] == Leaf(1, x) && cs[10] == Leaf(1, z)
    ensures ("10", x) in ChildCalls(cs, "") && ("10", z) in ChildCalls(cs, "")
  {
    TenthChild(cs, z);
    FirstGrandchild(cs[1].children, x);
    SmallDecimals();
    assert "" + Decimal(1) == "1";
    assert CodeCalls(cs[1], "1") == ChildCalls(cs[1].children, "1");
    ChildCallsHave(cs, "", 1, ("10", x));
  }

  lemma TenthChild<T>(cs: seq<Part<T>>, z: T)
    requires |cs| >= 11 && cs[10] == Leaf(1, z)
    ensures ("10", z) in ChildCalls(cs, "")
  {
    SmallDecimals();
    assert "" + Decimal(10) == "10";
    ChildCallsHave(cs, "", 10, ("10", z));
  }

  lemma FirstGrandchild<T>(inner: seq<Part<T>>, x: T)
    requires inner != [] && inner[0] == Leaf(1, x)
    ensures ("10", x) in ChildCalls(inner, "1")
  {
    SmallDecimals();
    assert "1" + Decimal(0) == "10";
    ChildCallsHave(inner, "1", 0, ("10", x));
  }

  // ---------------------------------------------------------------- depth and layers

  /** The number of edges on the longest path down; a childless node counts as one level. */
  function Height<T>(p: Part<T>): nat {
    match p
    case Leaf(_, _) => 0
    case Branch(_, cs) => 1 + MaxHeight(cs)
  }

  function MaxHeight<T>(cs: seq<Part<T>>): nat {
    if cs == [] then 0 else BinTree.Max(MaxHeight(cs[..|cs| - 1]), Height(cs[|cs| - 1]))
  }

  /** Every node has at least one child. */
  predicate Filled<T>(p: Part<T>) {
    match p
    case Leaf(_, _) => true
    case Branch(_, cs) => cs != [] && forall i :: 0 <= i < |cs| ==> Filled(cs[i])
  }

  /**
   * `__depth__(offset)`: a leaf answers its offset; a node the `max` of its
   * children's answers one level further down, which raises `ValueError`
   * for a node without children. The answer is the offset plus the height.
   */
  function DepthFrom<T>(p: Part<T>, offset: int): (r: Result<int>)
    ensures r.Ok? <==> Filled(p)
    ensures r.Err? ==> r.error == ValueError
    ensures r.Ok? ==> r.value == offset + Height(p)
  {
    match p
    case Leaf(_, _) => Ok(offset)
    case Branch(_, cs) => ChildDepths(cs, offset + 1)
  }

  /** `max(child.__depth__(offset) for child in self)`, children evaluated left to right. */
  function ChildDepths<T>(cs: seq<Part<T>>, offset: int): (r: Result<int>)
    ensures r.Ok? <==> cs != [] && forall i :: 0 <= i < |cs| ==> Filled(cs[i])
    ensures r.Err? ==> r.error == ValueError
    ensures r.Ok? ==> r.value == offset + MaxHeight(cs)
  {
    if cs == [] then Err(ValueError)
    else
      var n := |cs| - 1;
      assert forall i :: 0 <= i < n ==> cs[..n][i] == cs[i];
      if n == 0 then
        assert cs[..n] == [];
        DepthFrom(cs[0], offset)
      else
        var a := ChildDepths(cs[..n], offset);
        if a.Err? then a
        else
          var b := DepthFrom(cs[n], offset);
          if b.Err? then b else Ok(BinTree.Max(a.value, b.value))
  }

  /** The parts `k` levels below `p`, left to right. */
  function LevelParts<T>(p: Part<T>, k: nat): seq<Part<T>> {
    if k == 0 then [p]
    else match p
      case Leaf(_, _) => []
      case Branch(_, cs) => ChildLevel(cs, k - 1)
  }

  /** The parts `k` levels below each of `cs`, child after child. */
  function ChildLevel<T>(cs: seq<Part<T>>, k: nat): seq<Part<T>> {
    if cs == [] then [] else ChildLevel(cs[..|cs| - 1], k) + LevelParts(cs[|cs| - 1], k)
  }

  function LayerAt<T>(layers: seq<seq<Part<T>>>, k: nat): seq<Part<T>> {
    if k < |layers| then layers[k] else []
  }

  /** The parts of `p` that belong in layer `k` when `p` sits at `offset`. */
  function PartsAt<T>(p: Part<T>, offset: nat, k: nat): seq<Part<T>> {
    if k < offset then [] else LevelParts(p, k - offset)
  }

  /** The parts of the children `cs` that belong in layer `k` when they sit at `offset`. */
  function ChildPartsAt<T>(cs: seq<Part<T>>, offset: nat, k: nat): seq<Part<T>> {
    if k < offset then [] else ChildLevel(cs, k - offset)
  }

  /**
   * `__layer__(layers, offset)`: append the part to its layer; for a node,
   * open the next layer when it is the last one and let every child fill
   * in from there, in order. Every layer ends up extended by exactly the
   * parts of `p` at that distance, left to right; a childless node leaves
   * the layer it opened empty.
   */
  method SetLayer<T>(p: Part<T>, layers: seq<seq<Part<T>>>, offset: nat) returns (out: seq<seq<Part<T>>>)
    requires offset < |layers|
    ensures |out| == BinTree.Max(|layers|, offset + Height(p) + 1)
    ensures forall k: nat :: LayerAt(out, k) == LayerAt(layers, k) + PartsAt(p, offset, k)
    decreases p, 1
  {
    out := layers[offset := layers[offset] + [p]];
    if p.Branch? {
      ghost var put := out;
      if offset + 1 == |out| {
        out := out + [[]];
      }
      ghost var first := out;
      OwnLayer(p, layers, offset, put, first);
      out := FillChildren(p, out, offset + 1);
      NodeLength(p, |layers|, offset, |first|, |out|);
      NodeLayers(p, layers, offset, first, out);
    } else {
      LeafLayers(p, layers, offset, out);
    }
  }

  /**
   * The loop of `__layer__` over a node's children: each child in turn
   * fills in from the layer below the node.
   */
  method FillChildren<T>(p: Part<T>, first: seq<seq<Part<T>>>, offset: nat) returns (out: seq<seq<Part<T>>>)
    requires p.Branch? && offset < |first|
    ensures |out| == BinTree.Max(|first|, offset + 1 + MaxHeight(p.children))
    ensures forall k: nat :: LayerAt(out, k) == LayerAt(first, k) + ChildPartsAt(p.children, offset, k)
    decreases p, 0
  {
    out := first;
    var cs := p.children;
    assert cs[..0] == [];
    for i := 0 to |cs|
      invariant |out| == BinTree.Max(|first|, offset + 1 + MaxHeight(cs[..i]))
      invariant forall k: nat :: LayerAt(out, k) == LayerAt(first, k) + ChildPartsAt(cs[..i], offset, k)
    {
      ghost var before := out;
      out := SetLayer(cs[i], out, offset);
      LengthStep(cs, i, offset, |first|, |before|, |out|);
      PartsStep(cs, i, offset, first, before, out);
    }
    assert cs[..|cs|] == cs;
  }

  /** One more child: its height joins the maximum. */
  lemma ChildStep<T>(cs: seq<Part<T>>, i: nat)
    requires i < |cs|
    ensures MaxHeight(cs[..i + 1]) == BinTree.Max(MaxHeight(cs[..i]), Height(cs[i]))
  {
    assert cs[..i + 1][..i] == cs[..i];
  }

  /** One more child: its parts at each level follow those of the children before it. */
  lemma ChildPartsStep<T>(cs: seq<Part<T>>, i: nat, offset: nat, k: nat)
    requires i < |cs|
    ensures ChildPartsAt(cs[..i + 1], offset, k) == ChildPartsAt(cs[..i], offset, k) + PartsAt(cs[i], offset, k)
  {
    assert cs[..i + 1][..i] == cs[..i];
  }

  /** The loop of `__layer__` keeps its length invariant when child `i` has filled in its layers. */
  lemma LengthStep<T>(cs: seq<Part<T>>, i: nat, offset: nat, first: nat, before: nat, out: nat)
    requires i < |cs|
    requires before == BinTree.Max(first, offset + 1 + MaxHeight(cs[..i]))
    requires out == BinTree.Max(before, offset + Height(cs[i]) + 1)
    ensures out == BinTree.Max(first, offset + 1 + MaxHeight(cs[..i + 1]))
  {
    ChildStep(cs, i);
  }

  /** The loop of `__layer__` keeps its layer invariant when child `i` has filled in its layers. */
  lemma PartsStep<T>(cs: seq<Part<T>>, i: nat, offset: nat, first: seq<seq<Part<T>>>,
                     before: seq<seq<Part<T>>>, out: seq<seq<Part<T>>>)
    requires i < |cs|
    requires forall k: nat :: LayerAt(before, k) == LayerAt(first, k) + ChildPartsAt(cs[..i], offset, k)
    requires forall k: nat :: LayerAt(out, k) == LayerAt(before, k) + PartsAt(cs[i], offset, k)
    ensures forall k: nat :: LayerAt(out, k) == LayerAt(first, k) + ChildPartsAt(cs[..i + 1], offset, k)
  {
    forall k: nat ensures LayerAt(out, k) == LayerAt(first, k) + ChildPartsAt(cs[..i + 1], offset, k) {
      ChildPartsStep(cs, i, offset, k);
    }
  }

  /** After the children of a node have filled in, there are as many layers as the node reaches. */
  lemma NodeLength<T>(p: Part<T>, layers: nat, offset: nat, first: nat, out: nat)
    requires p.Branch?
    requires first == BinTree.Max(layers, offset + 2)
    requires out == BinTree.Max(first, offset + 2 + MaxHeight(p.children))
    ensures out == BinTree.Max(layers, offset + Height(p) + 1)
  {
    assert Height(p) == 1 + MaxHeight(p.children);
  }

  /** After the children of a node have filled in, the layers hold the node's parts at every level. */
  lemma NodeLayers<T>(p: Part<T>, layers: seq<seq<Part<T>>>, offset: nat, first: seq<seq<Part<T>>>,
                      out: seq<seq<Part<T>>>)
    requires p.Branch?
    requires forall k: nat :: LayerAt(first, k) == LayerAt(layers, k) + (if k == offset then [p] else [])
    requires forall k: nat :: LayerAt(out, k) == LayerAt(first, k) + ChildPartsAt(p.children, offset + 1, k)
    ensures forall k: nat :: LayerAt(out, k) == LayerAt(layers, k) + PartsAt(p, offset, k)
  {
    forall k: nat ensures LayerAt(out, k) == LayerAt(layers, k) + PartsAt(p, offset, k) {
      NodeLevel(p, offset, k);
      Regroup(LayerAt(layers, k), if k == offset then [p] else [], ChildPartsAt(p.children, offset + 1, k));
    }
  }

  /** A leaf only joins its own layer. */
  lemma LeafLayers<T>(p: Part<T>, layers: seq<seq<Part<T>>>, offset: nat, out: seq<seq<Part<T>>>)
    requires p.Leaf? && offset < |layers| && out == layers[offset := layers[offset] + [p]]
    ensures |out| == BinTree.Max(|layers|, offset + Height(p) + 1)
    ensures forall k: nat :: LayerAt(out, k) == LayerAt(layers, k) + PartsAt(p, offset, k)
  {
  }

  /** A node's parts at level `k`: itself at its own level, then its children's. */
  lemma NodeLevel<T>(p: Part<T>, offset: nat, k: nat)
    requires p.Branch?
    ensures PartsAt(p, offset, k) == (if k == offset then [p] else []) + ChildPartsAt(p.children, offset + 1, k)
  {
    if k > offset {
      assert PartsAt(p, offset, k) == ChildLevel(p.children, k - offset - 1);
    }
  }

  lemma Regroup<X>(a: seq<X>, b: seq<X>, c: seq<X>)
    ensures (a + b) + c == a + (b + c)
  {
  }

  /** The first step of `SetLayer` on a node: the node joins its own layer, and the next one exists. */
  lemma OwnLayer<T>(p: Part<T>, layers: seq<seq<Part<T>>>, offset: nat, put: seq<seq<Part<T>>>,
                    first: seq<seq<Part<T>>>)
    requires offset < |layers| && put == layers[offset := layers[offset] + [p]]
    requires first == if offset + 1 == |put| then put + [[]] else put
    ensures |first| == BinTree.Max(|layers|, offset + 2)
    ensures forall k: nat :: LayerAt(first, k) == LayerAt(layers, k) + (if k == offset then [p] else [])
  {
  }
}
