/**
 * huffman/huff.py: `huff_tree` over a frequency table, the `Node`
 * properties `depth`, `layers`, `code` and `from_tuple`, the `CodeMap`
 * class, and the `hfmn` codec's `__encode__` and `__decode__`.
 */
module HuffPy {
  import opened Results
  import opened Bits
  import opened CodeTable
  import opened BinTree
  import opened Counting
  import opened Greedy

  // ---------------------------------------------------------------- huff_tree

  /**
   * `huff_tree(frequency_map)`: `TypeError` for fewer than two entries;
   * otherwise a leaf per entry, merged greedily into one node that weighs
   * the total count and holds every entry once as a leaf.
   */
  method HuffTree<T>(freq: seq<(T, nat)>) returns (r: Result<Tree<T>>, ghost run: seq<Merge<T>>)
    ensures r.Err? <==> |freq| < 2
    ensures r.Err? ==> r.error == TypeError
    ensures r.Ok? ==>
      r.value.Node? && WellWeighted(r.value) && r.value.weight == SumCounts(freq) &&
      multiset(Leaves(r.value)) == multiset(Swapped(freq))
    ensures r.Ok? ==>
      |run| == |freq| - 1 && GreedyRun(multiset(LeafParts(freq)), run) &&
      After(multiset(LeafParts(freq)), run) == multiset{r.value}
  {
    if |freq| < 2 {
      return Err(TypeError), [];
    }
    var parts := LeafParts(freq);
    LeafPartsMass(freq);
    var t;
    t, run := HuffMerge(parts);
    r := Ok(t);
  }

  // ---------------------------------------------------------------- Node properties

  /** `Node.depth`: `__depth__(1)`, counting the root as the first level. */
  function Depth<T>(t: Tree<T>): (d: int)
    ensures d == Height(t) + 1 && d >= 1
  {
    DepthFrom(t, 1)
  }

  /** The depth is one more than the length of the longest root-to-leaf path. */
  lemma DepthIsLevels<T>(t: Tree<T>)
    ensures forall path :: Walk(t, path).Some? ==> |path| + 1 <= Depth(t)
    ensures exists path :: Walk(t, path).Some? && |path| + 1 == Depth(t)
  {
    forall path | Walk(t, path).Some? ensures |path| + 1 <= Depth(t) {
      PathWithinHeight(t, path);
    }
    var deepest := DeepestPath(t);
  }

  /**
   * `Node.layers`: start from `[[self], []]` and let both parts fill in
   * from layer 1. Layer `k` lists the parts `k` levels below the root, left
   * to right, and there is one layer per level.
   */
  method Layers<T>(t: Tree<T>) returns (layers: seq<seq<Tree<T>>>)
    requires t.Node?
    ensures |layers| == Height(t) + 1
    ensures forall k :: 0 <= k < |layers| ==> layers[k] == LevelParts(t, k)
  {
    var start := [[t], []];
    var mid := SetLayer(t.left, start, 1);
    layers := SetLayer(t.right, mid, 1);
    RootLayerCount(t, |mid|, |layers|);
    RootLayerParts(t, start, mid, layers);
  }

  /** The number of layers once both parts of the root have filled theirs in. */
  lemma RootLayerCount<T>(t: Tree<T>, mid: nat, count: nat)
    requires t.Node?
    requires mid == Max(2, 1 + Height(t.left) + 1) && count == Max(mid, 1 + Height(t.right) + 1)
    ensures count == Height(t) + 1
  {
  }

  /** The contents of the layers once both parts of the root have filled theirs in. */
  lemma RootLayerParts<T>(t: Tree<T>, start: seq<seq<Tree<T>>>, mid: seq<seq<Tree<T>>>, layers: seq<seq<Tree<T>>>)
    requires t.Node? && start == [[t], []]
    requires forall k: nat :: LayerAt(mid, k) == LayerAt(start, k) + PartsAt(t.left, 1, k)
    requires forall k: nat :: LayerAt(layers, k) == LayerAt(mid, k) + PartsAt(t.right, 1, k)
    ensures forall k :: 0 <= k < |layers| ==> layers[k] == LevelParts(t, k)
  {
    forall k | 0 <= k < |layers| ensures layers[k] == LevelParts(t, k) {
      RootLayerAt(t, start, LayerAt(mid, k), LayerAt(layers, k), k);
    }
  }

  /** Layer `k` once both parts of the root have filled it in. */
  lemma RootLayerAt<T>(t: Tree<T>, start: seq<seq<Tree<T>>>, mid: seq<Tree<T>>, layer: seq<Tree<T>>, k: nat)
    requires t.Node? && start == [[t], []]
    requires mid == LayerAt(start, k) + PartsAt(t.left, 1, k)
    requires layer == mid + PartsAt(t.right, 1, k)
    ensures layer == LevelParts(t, k)
  {
    if k == 0 {
      assert LayerAt(start, k) == [t];
    } else {
      assert LayerAt(start, k) == [];
    }
  }

  /**
   * `Node.from_tuple`: `TypeError` unless given a tuple of at least two
   * items; otherwise the sum of the parts built from its first two items,
   * where a tuple of fewer than two items further down raises `IndexError`.
   * Nested pairs come back as the tree they were made from, reweighted.
   */
  function TreeFromTuple<T>(v: Value<T>): (r: Result<Tree<T>>)
    ensures r.Ok? <==> v.Tuple? && Convertible(v)
    ensures r.Err? ==> (r.error == TypeError <==> v.Atom? || |v.items| < 2)
    ensures r.Ok? ==> r.value.Node? && UnitWeighted(r.value)
    ensures IsPairs(v) && v.Tuple? ==> r.Ok? && ToTuple(r.value) == v
  {
    if v.Atom? || |v.items| < 2 then Err(TypeError)
    else
      assert IsPairs(v) ==> Convertible(v) by {
        if IsPairs(v) {
          PairsRoundTrip(v);
        }
      }
      var a := FromValue(v.items[0]);
      if a.Err? then Err(a.error)
      else
        var b := FromValue(v.items[1]);
        if b.Err? then Err(b.error)
        else
          var r := Add(a.value, b.value);
          assert IsPairs(v) ==> ToTuple(r) == v by {
            if IsPairs(v) {
              PairsRoundTrip(v);
            }
          }
          Ok(r)
  }

  // ---------------------------------------------------------------- bit packing

  /**
   * The packing both `CodeMap.encode` and `__encode__` do: with
   * `length = 1 + len(s)`, pad `s` with `8 - length % 8` zeros and write
   * `int(padded, 2)` on `length // 8` bytes (after adding the padding). That
   * is `(len(s) + 1) // 8 + 1` bytes, and a string that starts with '1'
   * reads back unchanged.
   */
  function Pack(s: string): (bs: seq<byte>)
    requires IsBits(s)
    ensures |bs| == (|s| + 1) / 8 + 1
    ensures s != [] && s[0] == '1' ==> Binary(bs) == s
  {
    var length := 1 + |s|;
    var offset := 8 - length % 8;
    var padded := Zeros(offset) + s;
    var k := (length + offset) / 8;
    assert length == 8 * (length / 8) + length % 8;
    assert Zeros(8 * k - |padded|) + padded == Zeros(offset + 1) + s;
    assert s != [] && s[0] == '1' ==> StripZeros(Zeros(offset + 1) + s) == s by {
      if s != [] && s[0] == '1' {
        StripPadding(offset + 1, s);
      }
    }
    IntToBytes(padded, k)
  }

  /** The bit-string rendering of the bytes, past the guard bit, scanned through the decode map. */
  function ReadBits<T>(d: map<string, T>, bs: seq<byte>): seq<T> {
    var bits := Binary(bs);
    Scan(d, bits[1..], "").0
  }

  /**
   * Packing "1" followed by the codes of a sequence and reading it back
   * through a decodable pair of maps gives the sequence.
   */
  lemma PackRoundTrip<T>(e: map<T, string>, d: map<string, T>, xs: seq<T>)
    requires Decodable(e, d)
    requires forall k :: 0 <= k < |xs| ==> xs[k] in e
    requires IsBits(Encoded(xs, e))
    ensures ReadBits(d, Pack("1" + Encoded(xs, e))) == xs
  {
    var s := "1" + Encoded(xs, e);
    assert s[1..] == Encoded(xs, e);
    ScanEncoded(e, d, xs);
  }

  // ---------------------------------------------------------------- the two loops

  /**
   * The encoding loop: start from the guard bit "1" and append each item's
   * code; `KeyError` at the first item the map has no code for.
   */
  method AppendCodes<T(==)>(e: map<T, string>, xs: seq<T>) returns (r: Result<string>)
    ensures (forall k :: 0 <= k < |xs| ==> xs[k] in e) ==> r == Ok("1" + Encoded(xs, e))
    ensures !(forall k :: 0 <= k < |xs| ==> xs[k] in e) ==> r == Err(KeyError)
  {
    var encoded := "1";
    for n := 0 to |xs|
      invariant forall k :: 0 <= k < n ==> xs[k] in e
      invariant encoded == "1" + Encoded(xs[..n], e)
    {
      if xs[n] !in e {
        return Err(KeyError);
      }
      assert xs[..n + 1] == xs[..n] + [xs[n]];
      EncodedSnoc(xs[..n], xs[n], e);
      encoded := encoded + e[xs[n]];
    }
    assert xs[..|xs|] == xs;
    return Ok(encoded);
  }

  /**
   * The decoding loop: skip the guard bit, then add one bit at a time to
   * the buffer and emit the value whenever the buffer is a code. A
   * trailing incomplete code is dropped.
   */
  method ScanLoop<T>(d: map<string, T>, bits: string) returns (out: seq<T>)
    requires bits != []
    ensures out == Scan(d, bits[1..], "").0
  {
    out := [];
    var b := "";
    for i := 1 to |bits|
      invariant out + Scan(d, bits[i..], b).0 == Scan(d, bits[1..], "").0
    {
      assert bits[i..][1..] == bits[i + 1..];
      b := b + [bits[i]];
      if b in d {
        out := out + [d[b]];
        b := "";
      }
    }
  }

  // ---------------------------------------------------------------- CodeMap

  /**
   * `CodeMap`: the value -> code and code -> value dictionaries. In the
   * source they are class attributes, so every instance reads and writes
   * the same two dictionaries: one object of this class stands for that
   * shared pair, and `CodeMap()` gives access to it without creating
   * anything.
   */
  class CodeMap<T(==)> {
    var encodeMap: map<T, string>
    var decodeMap: map<string, T>

    /** The class attributes as the class statement creates them: empty. */
    constructor ()
      ensures encodeMap == map[] && decodeMap == map[]
    {
      encodeMap, decodeMap := map[], map[];
    }

    /** `add(code, value)`: record the code in both directions, overwriting. */
    method Add(code: string, value: T)
      modifies this
      ensures encodeMap == old(encodeMap)[value := code]
      ensures decodeMap == old(decodeMap)[code := value]
    {
      encodeMap := encodeMap[value := code];
      decodeMap := decodeMap[code := value];
    }

    /** `__add_code__(self.add, code)`: add every leaf's code, left to right. */
    method AddCodes(t: Tree<T>, code: string)
      modifies this
      ensures encodeMap == old(encodeMap) + EncodeMap(CodeCalls(t, code))
      ensures decodeMap == old(decodeMap) + DecodeMap(CodeCalls(t, code))
      decreases t
    {
      match t
      case Leaf(_, v) =>
        Add(code, v);
        MapsSingle(code, v);
      case Node(_, l, r) =>
        ghost var e0, d0 := encodeMap, decodeMap;
        AddCodes(l, code + "0");
        AddCodes(r, code + "1");
        MapsAppend(e0, d0, CodeCalls(l, code + "0"), CodeCalls(r, code + "1"));
    }

    /**
     * `Node.code`: a `CodeMap()` filled with the tree's codes. Since the
     * dictionaries are shared, the codes land on top of whatever earlier
     * calls left there.
     */
    method Code(t: Tree<T>)
      modifies this
      ensures encodeMap == old(encodeMap) + EncodeMap(CodeCalls(t, ""))
      ensures decodeMap == old(decodeMap) + DecodeMap(CodeCalls(t, ""))
    {
      AddCodes(t, "");
    }

    /**
     * What `Node.code` is evidently meant to give: maps holding the tree's
     * codes and nothing else. For a root node with distinct leaf values
     * they are inverse and decodable.
     */
    constructor OfTree(t: Tree<T>)
      ensures encodeMap == EncodeMap(CodeCalls(t, "")) && decodeMap == DecodeMap(CodeCalls(t, ""))
      ensures t.Node? && DistinctLeafValues(t) ==> Inverse(encodeMap, decodeMap) && Decodable(encodeMap, decodeMap)
    {
      encodeMap := EncodeMap(CodeCalls(t, ""));
      decodeMap := DecodeMap(CodeCalls(t, ""));
      if t.Node? && DistinctLeafValues(t) {
        RootTable(t);
      }
    }

    /**
     * `__from_tuple__(value, code)`: a tuple recurses into its first item
     * with `code + "0"`, then its second with `code + "1"`; anything else is
     * added under `code`. A tuple of fewer than two items raises
     * `IndexError`, after its first item (if any) has been added.
     */
    method AddTupleCodes(v: Value<T>, code: string) returns (r: Result<()>)
      modifies this
      ensures r.Ok? <==> Convertible(v)
      ensures r.Err? ==> r.error == IndexError
      ensures encodeMap == old(encodeMap) + EncodeMap(Attempted(v, code))
      ensures decodeMap == old(decodeMap) + DecodeMap(Attempted(v, code))
      decreases v
    {
      match v
      case Atom(x) =>
        Add(code, x);
        MapsSingle(code, x);
        r := Ok(());
      case Tuple(items) =>
        if |items| == 0 {
          return Err(IndexError);
        }
        ghost var e0, d0 := encodeMap, decodeMap;
        r := AddTupleCodes(items[0], code + "0");
        if r.Err? || |items| < 2 {
          return Err(IndexError);
        }
        r := AddTupleCodes(items[1], code + "1");
        MapsAppend(e0, d0, Attempted(items[0], code + "0"), Attempted(items[1], code + "1"));
    }

    /**
     * `CodeMap.from_tuple(value)`: `TypeError`, with nothing added, unless
     * `value` is a tuple of at least two items; otherwise its first item's
     * codes start with "0" and its second's with "1". Nested pairs add the
     * codes of the tree they stand for.
     */
    method FromTuple(v: Value<T>) returns (r: Result<()>)
      modifies this
      ensures r.Ok? <==> v.Tuple? && Convertible(v)
      ensures r.Err? ==> (r.error == TypeError <==> v.Atom? || |v.items| < 2)
      ensures v.Atom? || |v.items| < 2 ==> encodeMap == old(encodeMap) && decodeMap == old(decodeMap)
      ensures v.Tuple? && |v.items| >= 2 ==>
        encodeMap == old(encodeMap) + EncodeMap(Attempted(v, "")) &&
        decodeMap == old(decodeMap) + DecodeMap(Attempted(v, ""))
    {
      if v.Atom? || |v.items| < 2 {
        return Err(TypeError);
      }
      ghost var e0, d0 := encodeMap, decodeMap;
      assert "" + "0" == "0" && "" + "1" == "1";
      r := AddTupleCodes(v.items[0], "0");
      if r.Ok? {
        r := AddTupleCodes(v.items[1], "1");
        MapsAppend(e0, d0, Attempted(v.items[0], "0"), Attempted(v.items[1], "1"));
      }
    }

    /**
     * `encode(stdin)`: "1" followed by the items' codes, packed into bytes;
     * `KeyError` for an item without a code and `ValueError` when a code is
     * not binary.
     */
    method Encode(xs: seq<T>) returns (r: Result<seq<byte>>)
      ensures r == Encoding(encodeMap, xs)
    {
      var s := AppendCodes(encodeMap, xs);
      if s.Err? {
        return Err(KeyError);
      }
      if !IsBits(s.value) {
        return Err(ValueError);
      }
      return Ok(Pack(s.value));
    }

    /**
     * `decode(stdin)` as it is evidently meant to read: render the bytes as
     * bits and scan them, past the guard bit, through the decode map.
     */
    method Decode(bs: seq<byte>) returns (out: seq<T>)
      ensures out == ReadBits(decodeMap, bs)
    {
      var bits := Binary(bs);
      out := ScanLoop(decodeMap, bits);
    }
  }

  /**
   * The calls `__from_tuple__` makes before it returns or fails: all of
   * them for a tuple every level of which has at least two items, those up
   * to the failing index otherwise.
   */
  function Attempted<T>(v: Value<T>, code: string): (calls: seq<(string, T)>)
    ensures Convertible(v) ==> TupleCalls(v, code) == Ok(calls)
  {
    match v
    case Atom(x) => [(code, x)]
    case Tuple(items) =>
      if |items| == 0 then []
      else
        var a := Attempted(items[0], code + "0");
        if |items| < 2 || !Convertible(items[0]) then a
        else a + Attempted(items[1], code + "1")
  }

  /** What `CodeMap.encode` returns for the encode map `e`. */
  function Encoding<T(==)>(e: map<T, string>, xs: seq<T>): Result<seq<byte>> {
    if !(forall k :: 0 <= k < |xs| ==> xs[k] in e) then Err(KeyError)
    else
      var s := "1" + Encoded(xs, e);
      if !IsBits(s) then Err(ValueError) else Ok(Pack(s))
  }

  /**
   * `CodeMap.encode` fails exactly on a missing code or a non-binary
   * one, and with decodable maps its bytes decode back to the input.
   */
  lemma CodeMapRoundTrip<T>(e: map<T, string>, d: map<string, T>, xs: seq<T>)
    requires Decodable(e, d)
    ensures Encoding(e, xs).Ok? <==>
      (forall k :: 0 <= k < |xs| ==> xs[k] in e) && IsBits(Encoded(xs, e))
    ensures Encoding(e, xs).Ok? ==> ReadBits(d, Encoding(e, xs).value) == xs
  {
    if forall k :: 0 <= k < |xs| ==> xs[k] in e {
      GuardBits(Encoded(xs, e));
      if IsBits(Encoded(xs, e)) {
        assert Encoding(e, xs) == Ok(Pack("1" + Encoded(xs, e)));
        PackRoundTrip(e, d, xs);
      } else {
        assert Encoding(e, xs) == Err(ValueError);
      }
    } else {
      assert Encoding(e, xs) == Err(KeyError);
    }
  }

  /**
   * `CodeMap.decode` as written reads a name, `encoded`, that is not
   * defined there: the first step of its loop raises `NameError`, so only
   * a rendering of at most one bit decodes (to nothing).
   */
  function DecodeAsWritten<T>(bs: seq<byte>): (r: Result<seq<T>>)
    ensures r.Ok? ==> r.value == []
    ensures r.Err? ==> r.error == NameError
  {
    if |Binary(bs)| > 1 then Err(NameError) else Ok([])
  }

  /** Whatever non-empty input `CodeMap.encode` packs, the as-written decode fails on it. */
  lemma DecodeAsWrittenFails<T>(e: map<T, string>, xs: seq<T>)
    requires xs != [] && Encoding(e, xs).Ok? && e[xs[0]] != []
    ensures DecodeAsWritten<T>(Encoding(e, xs).value) == Err(NameError)
  {
    var s := "1" + Encoded(xs, e);
    assert |s| > 1;
  }

  /**
   * The class-level dictionaries at work: filling a `CodeMap` from the
   * pair ('a', 'b') and then from (('a', 'b'), 'c') leaves "0" -> 'a' from
   * the first tree beside "00" -> 'a' from the second, so the second tree's
   * code for 'a' no longer decodes to one 'a'.
   */
  lemma SharedMapsMisdecode()
    ensures var t1 := Node(2, Leaf(1, 'a'), Leaf(1, 'b'));
      var t2 := Node(3, t1, Leaf(1, 'c'));
      var e := EncodeMap(CodeCalls(t1, "")) + EncodeMap(CodeCalls(t2, ""));
      var d := DecodeMap(CodeCalls(t1, "")) + DecodeMap(CodeCalls(t2, ""));
      'a' in e && e['a'] == "00" && Scan(d, e['a'], "").0 == ['a', 'a']
  {
    var t1 := Node(2, Leaf(1, 'a'), Leaf(1, 'b'));
    var t2 := Node(3, t1, Leaf(1, 'c'));
    var c1 := [("0", 'a'), ("1", 'b')];
    var c2 := [("00", 'a'), ("01", 'b'), ("1", 'c')];
    ExampleCalls(t1, t2, c1, c2);
    ExampleMaps(c1, c2);
    ExampleScan(DecodeMap(c1) + DecodeMap(c2));
  }

  lemma ExampleCalls(t1: Tree<char>, t2: Tree<char>, c1: seq<(string, char)>, c2: seq<(string, char)>)
    requires t1 == Node(2, Leaf(1, 'a'), Leaf(1, 'b')) && t2 == Node(3, t1, Leaf(1, 'c'))
    requires c1 == [("0", 'a'), ("1", 'b')] && c2 == [("00", 'a'), ("01", 'b'), ("1", 'c')]
    ensures CodeCalls(t1, "") == c1 && CodeCalls(t2, "") == c2
  {
    assert "" + "0" == "0" && "" + "1" == "1" && "0" + "0" == "00" && "0" + "1" == "01";
    assert CodeCalls(t1, "0") == [("00", 'a'), ("01", 'b')];
  }

  lemma ExampleMaps(c1: seq<(string, char)>, c2: seq<(string, char)>)
    requires c1 == [("0", 'a'), ("1", 'b')] && c2 == [("00", 'a'), ("01", 'b'), ("1", 'c')]
    ensures var e, d := EncodeMap(c1) + EncodeMap(c2), DecodeMap(c1) + DecodeMap(c2);
      'a' in e && e['a'] == "00" && "0" in d && d["0"] == 'a'
  {
    assert DistinctValues(c2);
    EncodeMapAt(c2, 0);
    assert c1[0].0[0] != c1[1].0[0];
    assert PrefixFree(c1);
    DecodeMapAt(c1, 0);
    DecodeMapKeys(c2, "0");
  }

  lemma ExampleScan(d: map<string, char>)
    requires "0" in d && d["0"] == 'a'
    ensures Scan(d, "00", "").0 == ['a', 'a']
  {
    var zero: string := "0";
    assert zero[0] == '0' && zero[1..] == [] && "" + [zero[0]] == zero;
    var empty: string := [];
    assert Scan(d, empty, "") == ([], "");
    assert zero[1..] == empty;
    var b := "" + [zero[0]];
    assert b in d && d[b] == 'a';
    assert Scan(d, zero, "") == ([d[b]] + Scan(d, zero[1..], "").0, Scan(d, zero[1..], "").1);
    assert Scan(d, zero[1..], "") == ([], "");
    assert [d[b]] + [] == ['a'];
    assert Scan(d, zero, "") == (['a'], "");
    var two: string := "00";
    assert two[0] == '0' && two[1..] == zero && "" + [two[0]] == zero;
  }

  // ---------------------------------------------------------------- the codec

  /** The header text: `str(tuple).encode("utf-8")` one way, `eval` the other. */
  datatype TupleText = TupleText(show: Value<char> -> seq<byte>, eval: seq<byte> -> Option<Value<char>>)

  /** `eval` reads back what `str` wrote, for nested pairs of characters. */
  ghost predicate ReadsBack(f: TupleText) {
    forall v :: IsPairs(v) ==> f.eval(f.show(v)) == Some(v)
  }

  /** `BYTES_CODEMAP`: the width, in bytes, of the header length field. */
  const CodemapBytes: nat := 2

  /** `n.to_bytes(2, "big")`. */
  function LengthField(n: nat): (bs: seq<byte>)
    requires n < 65536
    ensures |bs| == CodemapBytes && BytesValue(bs) == n
  {
    var bs := [n / 256, n % 256];
    assert bs[..1] == [n / 256] && bs[..1][..0] == [];
    assert BytesValue(bs[..1]) == n / 256;
    bs
  }

  /** The codec's output: header length, header, packed bits. */
  function Frame(header: seq<byte>, payload: seq<byte>): (bs: seq<byte>)
    requires |header| < 65536
    ensures |bs| == CodemapBytes + |header| + |payload|
    ensures BytesValue(bs[..CodemapBytes]) == |header|
  {
    var field := LengthField(|header|);
    assert (field + header + payload)[..CodemapBytes] == field;
    field + header + payload
  }

  /** Every item has a code in the tree. */
  ghost predicate Covers<T>(t: Tree<T>, xs: seq<T>) {
    forall k :: 0 <= k < |xs| ==> xs[k] in EncodeMap(CodeCalls(t, ""))
  }

  /** The packed bits `__encode__` writes for `xs` with the codes of `t`. */
  function Payload<T(==)>(t: Tree<T>, xs: seq<T>): (bs: seq<byte>)
    requires Covers(t, xs)
    ensures Binary(bs) == "1" + Encoded(xs, EncodeMap(CodeCalls(t, "")))
  {
    var e := EncodeMap(CodeCalls(t, ""));
    PayloadBits(t, xs);
    Pack("1" + Encoded(xs, e))
  }

  lemma PayloadBits<T>(t: Tree<T>, xs: seq<T>)
    requires Covers(t, xs)
    ensures IsBits("1" + Encoded(xs, EncodeMap(CodeCalls(t, ""))))
  {
    var e := EncodeMap(CodeCalls(t, ""));
    forall k | 0 <= k < |xs| ensures IsBits(e[xs[k]]) {
      var i := ValueIndex(CodeCalls(t, ""), xs[k]);
      EncodedBitsAt(t, i);
    }
    EncodedBits(xs, e);
  }

  lemma EncodedBitsAt<T>(t: Tree<T>, i: nat)
    requires i < |CodeCalls(t, "")|
    ensures var c := CodeCalls(t, "")[i]; c.1 in EncodeMap(CodeCalls(t, "")) && IsBits(EncodeMap(CodeCalls(t, ""))[c.1])
  {
    var calls := CodeCalls(t, "");
    EncodeMapKeys(calls, calls[i].1);
    var j := LastWith(calls, calls[i].1);
    CodesAreBits(t, "");
  }

  /** The encode map sends a value to the code of the last call with that value. */
  lemma {:induction false} LastWith<T>(calls: seq<(string, T)>, v: T) returns (j: nat)
    requires v in EncodeMap(calls)
    ensures j < |calls| && EncodeMap(calls)[v] == calls[j].0
  {
    var n := |calls| - 1;
    if calls[n].1 == v {
      j := n;
    } else {
      j := LastWith(calls[..n], v);
    }
  }

  /**
   * `__decode__(stdin)`: the first two bytes give the header length; the
   * header is `eval`ed (`SyntaxError` when that fails) and must be a tuple
   * whose first two items are nested tuples of at least two items
   * (`IndexError` otherwise); they give the decode map, "0..." for the
   * first item and "1..." for the second; the rest of the bytes is scanned
   * past its guard bit. Short input is sliced as Python slices.
   */
  function Decoding(bs: seq<byte>, eval: seq<byte> -> Option<Value<char>>): (r: Result<string>)
    ensures r.Err? ==> r.error == SyntaxError || r.error == IndexError
  {
    var lenEnd := if |bs| < CodemapBytes then |bs| else CodemapBytes;
    var codeLen := BytesValue(bs[..lenEnd]) + CodemapBytes;
    var headEnd := if |bs| < codeLen then |bs| else codeLen;
    match eval(bs[lenEnd..headEnd])
    case None => Err(SyntaxError)
    case Some(v) =>
      if v.Atom? then Err(IndexError)
      else
        var calls := TupleCalls(v, "");
        if calls.Err? then Err(calls.error)
        else Ok(ReadBits(DecodeMap(calls.value), bs[headEnd..]))
  }

  /** `__decode__` with its scanning loop. */
  method Decode(bs: seq<byte>, eval: seq<byte> -> Option<Value<char>>) returns (r: Result<string>)
    ensures r == Decoding(bs, eval)
  {
    var lenEnd := if |bs| < CodemapBytes then |bs| else CodemapBytes;
    var codeLen := BytesValue(bs[..lenEnd]) + CodemapBytes;
    var headEnd := if |bs| < codeLen then |bs| else codeLen;
    var parsed := eval(bs[lenEnd..headEnd]);
    if parsed.None? {
      return Err(SyntaxError);
    }
    var v := parsed.value;
    if v.Atom? {
      return Err(IndexError);
    }
    var calls := TupleCalls(v, "");
    if calls.Err? {
      return Err(calls.error);
    }
    var out := ScanLoop(DecodeMap(calls.value), Binary(bs[headEnd..]));
    return Ok(out);
  }

  /** The pieces `__decode__` cuts a frame into are the ones it was made of. */
  lemma FrameSlices(header: seq<byte>, payload: seq<byte>)
    requires |header| < 65536
    ensures var bs := Frame(header, payload);
      |bs| >= CodemapBytes + |header| && bs[..CodemapBytes] == LengthField(|header|) &&
      bs[CodemapBytes..CodemapBytes + |header|] == header && bs[CodemapBytes + |header|..] == payload
  {
  }

  /** The header of a root node's tuple gives back the tree's code calls. */
  lemma HeaderCalls(t: Tree<char>, f: TupleText)
    requires t.Node? && ReadsBack(f)
    ensures f.eval(f.show(ToTuple(t))) == Some(ToTuple(t)) && ToTuple(t).Tuple?
    ensures TupleCalls(ToTuple(t), "") == Ok(CodeCalls(t, ""))
  {
    TupleCallsOfTree(t, "");
  }

  /** A frame whose header reads back as nested pairs decodes its payload with their decode map. */
  lemma FrameDecoding(header: seq<byte>, payload: seq<byte>, eval: seq<byte> -> Option<Value<char>>, v: Value<char>,
                      calls: seq<(string, char)>)
    requires |header| < 65536 && eval(header) == Some(v) && v.Tuple? && TupleCalls(v, "") == Ok(calls)
    ensures Decoding(Frame(header, payload), eval) == Ok(ReadBits(DecodeMap(calls), payload))
  {
    FrameSlices(header, payload);
  }

  /** The payload of a root node with distinct leaf values reads back as the input. */
  lemma PayloadRoundTrip<T>(t: Tree<T>, xs: seq<T>)
    requires t.Node? && DistinctLeafValues(t) && Covers(t, xs)
    ensures ReadBits(DecodeMap(CodeCalls(t, "")), Payload(t, xs)) == xs
  {
    var calls := CodeCalls(t, "");
    RootTable(t);
    PayloadBits(t, xs);
    var e := EncodeMap(calls);
    GuardBits(Encoded(xs, e));
    PackRoundTrip(e, DecodeMap(calls), xs);
  }

  /** A frame written for a root node with distinct leaf values decodes back to the input. */
  lemma FrameRoundTrip(t: Tree<char>, xs: string, f: TupleText)
    requires t.Node? && DistinctLeafValues(t) && Covers(t, xs) && ReadsBack(f)
    requires |f.show(ToTuple(t))| < 65536
    ensures Decoding(Frame(f.show(ToTuple(t)), Payload(t, xs)), f.eval) == Ok(xs)
  {
    HeaderCalls(t, f);
    FrameDecoding(f.show(ToTuple(t)), Payload(t, xs), f.eval, ToTuple(t), CodeCalls(t, ""));
    PayloadRoundTrip(t, xs);
  }

  /** A tree holding the counted characters of `xs` has distinct leaves and a code for every character. */
  lemma TallyTree(xs: string, t: Tree<char>)
    requires multiset(Leaves(t)) == multiset(Swapped(Entries(xs)))
    ensures DistinctLeafValues(t) && Covers(t, xs)
  {
    var freq := Entries(xs);
    FirstsAreDistinctItems(xs);
    assert forall a :: 0 <= a < |freq| ==> freq[a].0 == Firsts(xs)[a];
    EntryLeaves(t, freq);
    forall k | 0 <= k < |xs| ensures xs[k] in EncodeMap(CodeCalls(t, "")) {
      assert xs[k] in Firsts(xs);
      var i :| 0 <= i < |freq| && Firsts(xs)[i] == xs[k];
    }
  }

  /**
   * `__encode__(stdin)`: count the characters, build the Huffman tree
   * (`TypeError` for fewer than two distinct characters), write its tuple
   * as the header (`OverflowError` when that takes 65536 bytes or more),
   * then the packed codes. The frame holds the tree `tree` that the
   * greedy merges `run` leave of the counted characters' leaves, and
   * decodes back to the input whenever `eval` reads back what `str` wrote.
   */
  method Encode(xs: string, f: TupleText) returns (r: Result<seq<byte>>, ghost tree: Tree<char>, ghost run: seq<Merge<char>>)
    ensures r.Err? ==> (r.error == TypeError <==> |Firsts(xs)| < 2)
    ensures r.Ok? ==>
      GreedyRun(multiset(LeafParts(Entries(xs))), run) && After(multiset(LeafParts(Entries(xs))), run) == multiset{tree}
    ensures r.Err? ==> r.error == TypeError || (r.error == OverflowError && |f.show(ToTuple(tree))| >= 65536)
    ensures r.Ok? ==> (tree.Node? && WellWeighted(tree) && tree.weight == |xs| &&
      multiset(Leaves(tree)) == multiset(Swapped(Entries(xs))))
    ensures r.Ok? ==> (DistinctLeafValues(tree) && Covers(tree, xs) && |f.show(ToTuple(tree))| < 65536 &&
      r.value == Frame(f.show(ToTuple(tree)), Payload(tree, xs)))
    ensures r.Ok? && ReadsBack(f) ==> Decoding(r.value, f.eval) == Ok(xs)
  {
    var freq := Tally(xs);
    var built;
    built, run := HuffTree(freq);
    assert |freq| == |Firsts(xs)|;
    tree := Leaf(0, ' ');
    if built.Err? {
      return Err(TypeError), tree, run;
    }
    var t := built.value;
    tree := t;
    CountsSumToLength(xs);
    TallyTree(xs, t);
    var header := f.show(ToTuple(t));
    var e := EncodeMap(CodeCalls(t, ""));
    var s := AppendCodes(e, xs);
    assert s == Ok("1" + Encoded(xs, e));
    if |header| >= 65536 {
      return Err(OverflowError), tree, run;
    }
    PayloadBits(t, xs);
    var payload := Pack(s.value);
    assert payload == Payload(t, xs);
    r := Ok(LengthField(|header|) + header + payload);
    if ReadsBack(f) {
      FrameRoundTrip(tree, xs, f);
    }
  }
}
