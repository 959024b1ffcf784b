# Huffman coders, a heap sort, a fire automaton and cgraph's array helpers, in Dafny

This project models the algorithmic core of a small collection of
programs and proves what they promise.

- **`huffman/huff.py`**: a Huffman codec.
  - It counts symbol frequencies (`frequency_map`).
  - It builds the tree greedily from a heap (`huff_tree`).
  - It converts the tree to and from nested pairs (`to_tuple`, `from_tuple`).
  - It assigns path codes through `__add_code__` into a `CodeMap`.
  - It packs the bits behind a guard bit into big-endian bytes.
  - It frames the result as a 2-byte header length, the header, then the payload (`__encode__` / `__decode__`).
- **`pytree/pytree.py`**: the same tree in two forms.
  - A binary `BinNode` with the same Huffman builder.
  - A multi-child `Node` whose `<<`, `>>` and `|` change it in place.
- **`huffman/huff.mjs`**: a JavaScript port.
  - Its `Root` constructor merges the two lightest parts by a linear `_popLight` scan.
  - `getCodeMap` fills two `Map`s.
  - `CodeMap.encode` / `decode` pack and unpack bits.
- **`sort/heap.py`**: `HeapBin`, an in-place heap sort over the items and a parallel list of their weights.
- **`automata/fire.py`**: `AutoMatrix`, a grid of cells moving from uninfected to spread to infected.
  - A queue of burning coordinates drives it.
  - Three counters track the cells in each state.
- **`cgraph/src/array.c` and `cgraph/src/graph.c`**: integer helpers.
  - `append_int`, `append_array`, `range`, `extremum`, `fromFn` and `from2D`.
  - The printed width of an `int` (`digit`, `digit_ext`) and a run of one character (`charmult`).

## Form of the model

Each source file becomes one or more Dafny modules.

**Values and pure logic** become datatypes and functions:

| Module | Contents |
|---|---|
| `BinTree` | the binary `Leaf`/`Node` tree shared by `huff.py`, pytree's `BinNode` and `huff.mjs` |
| `Bits` | bit strings and bytes |
| `CodeTable` | encode/decode maps and the prefix scan |
| `Counting` | ordered frequency entries |
| `Greedy` | the heap merge loop |

**State that the source updates in place** becomes classes with `modifies` clauses:

- `HuffPy.CodeMap`
- `PyNode.Node`
- `HuffJs.Root`
- `HuffJs.CodeMap`
- `Heap.HeapBin`
- `Fire.AutoMatrix`
- `CArray.Array`
- `CArray.Array2D`

**Loops** become methods with loop invariants, each proved against a specification function:

- `Counting.Tally`
- `Greedy.HuffMerge`
- `HuffPy.AppendCodes`, `HuffPy.ScanLoop`
- `HuffJs.Root.PopLight`
- `Heap.HeapBin.Sort`
- `Fire.AutoMatrix.BurnQueue`
- `CArray.Range`, `CArray.Extremum`
- `CGraph.Digit`, `CGraph.CharMult`

**Error handling:**

- A Python exception becomes an `Err` of the `Results.Result` datatype, naming the exception.
- cgraph's `check` macro, which prints a tag and exits, becomes the `Exit` case of `CArray.Checked`.

## Model

| member | source | states |
|---|---|---|
| `Bits.IntToBytes` | huffman/huff.py:112 | `int(bits, 2).to_bytes(k)`: exactly k bytes whose big-endian value is the bit string's value; their bits are the string left-padded with zeros to 8k bits |
| `Bits.Binary` | huffman/huff.py:123 | `format(int.from_bytes(b), "0b")`: a bit string with the bytes' value that is "0" or starts with '1' |
| `Bits.BinaryOfPacked` | huffman/huff.py:463 | reading packed bytes back as bits gives exactly the packed string when it starts with the guard '1' |
| `Bits.UnchunkChunk` | huffman/huff.mjs:259 | cutting a bit string into 8-bit chunks and joining their 8-bit renderings gives the string back |
| `Bits.BitsOfValue` | huffman/huff.mjs:270-271 | a bit string is the zero-padded binary rendering of its own value |
| `Bits.ValueConcat` | huffman/huff.py:109-112 | the value of two bit strings joined is the first shifted past the second plus the second |
| `Bits.StripZerosValue` | huffman/huff.py:123 | dropping leading zeros keeps the value and leaves nothing or a leading '1' |
| `CodeTable.MapsConcat` | huffman/huff.py:68-69 | filling the maps with two runs of calls gives the union of their maps, later calls winning |
| `CodeTable.EncodeMapKeys` | huffman/huff.py:68 | a value has a code exactly when some call recorded it |
| `CodeTable.DecodeMapKeys` | huffman/huff.py:69 | a code has a value exactly when some call recorded it |
| `CodeTable.TableInverse` | huffman/huff.py:91-93 | with distinct values and prefix-free codes the value->code and code->value maps are inverse |
| `CodeTable.TableDecodable` | huffman/huff.py:127-129 | with distinct values and non-empty prefix-free codes, no key of the decode map is a proper prefix of a code |
| `CodeTable.EncodedSnoc` | huffman/huff.py:105-106 | encoding one more item appends exactly its code |
| `CodeTable.ScanEncoded` | huffman/huff.py:124-129 | scanning the codes of `xs` bit by bit, emitting and clearing the buffer on every match, gives back exactly `xs` with nothing left over |
| `CodeTable.EncodedBits` | huffman/huff.py:105-106 | binary codes concatenate to a bit string |
| `Counting.Find` | huffman/huff.py:394 | dictionary lookup: the index of the key, or -1 exactly when no entry has it |
| `Counting.Tally` | huffman/huff.py:381-398 | `frequency_map`: one entry per distinct item in order of first appearance, each counting that item's occurrences, all positive |
| `Counting.FirstsAreDistinctItems` | huffman/huff.py:392-397 | the keys are exactly the items of the input, each once |
| `Counting.CountPositive` | huffman/huff.py:394-397 | an item's count is positive exactly when it occurs |
| `Counting.CountsSumToLength` | huffman/huff.py:392-398 | the counts add up to the input length |
| `BinTree.Add` | huffman/huff.py:142-143 | `a + b` is a node over a then b; it is well weighted iff its parts are, and its leaves are a's then b's |
| `BinTree.WeightIsLeafSum` | huffman/huff.py:415-421 | a well-weighted tree weighs the sum of its leaf weights |
| `BinTree.Len` | huffman/huff.py:236-237 | huff.py `__len__` counts the leaves |
| `BinTree.Size` | pytree/pytree.py:233-239 | `BinNode.__len__` counts every node and leaf: twice the leaves less one |
| `BinTree.DepthFrom` | huffman/huff.py:253-263 | `__depth__(offset)` is the offset plus the height |
| `BinTree.PathWithinHeight` | huffman/huff.py:184-195 | no root-to-leaf path is longer than the height |
| `BinTree.DeepestPath` | huffman/huff.py:262-263 | some root-to-leaf path is exactly as long as the height |
| `BinTree.SetLayer` | huffman/huff.py:278-290 | `__set_layer__` extends every layer by exactly the parts at that distance, left to right, opening layers as needed |
| `BinTree.CodeCalls` | huffman/huff.py:265-276 | `__add_code__` makes one call per leaf, in order, with the leaf's value and a code extending the given one |
| `BinTree.CodeIsPath` | huffman/huff.py:206-215 | each call's code is the given code followed by the '0'/'1' path to its leaf |
| `BinTree.CodesAreBits` | huffman/huff.py:275-276 | codes grown from a bit string are bit strings |
| `BinTree.CodesPrefixFree` | huffman/huff.py:275-276 | no code of a tree is a prefix of another of its codes |
| `BinTree.RootTable` | huffman/huff.py:342-353 | for a root node with distinct leaf values the code maps are inverse and decodable |
| `BinTree.ToTuple` | huffman/huff.py:372-378 | `to_tuple` gives nested pairs, a pair exactly for a node |
| `BinTree.FromValue` | huffman/huff.py:292-306 | `__from_tuple__` succeeds exactly on tuples of at least two items at every level (`IndexError` otherwise), giving leaves of weight 1 and nodes weighing their leaf count |
| `BinTree.UnitWeightIsLeafCount` | huffman/huff.py:305-306 | leaves of weight 1 summed by `+` make every node weigh its leaf count |
| `BinTree.UnweightedCodes` | huffman/huff.py:304-306 | reweighting a tree to unit leaves changes neither its codes, its tuple nor its height |
| `BinTree.TupleRoundTrip` | huffman/huff.py:372-378 | a tree to tuple and back is the same tree with unit leaf weights |
| `BinTree.PairsRoundTrip` | huffman/huff.py:292-306 | nested pairs to tree and back are the same pairs |
| `BinTree.TupleCalls` | huffman/huff.py:62-69 | `CodeMap.__from_tuple__` makes the calls the tree of the tuple would make, failing exactly when the tuple is not nested pairs |
| `BinTree.TupleCallsOfTree` | huffman/huff.py:87-88 | filling a `CodeMap` from a tree's tuple assigns the same codes as the tree itself |
| `Greedy.LeafPartsMass` | huffman/huff.py:415 | the leaves made from the entries weigh the total count and are the entries, weight first |
| `Greedy.PopMin` | huffman/huff.py:418 | `heappop`: takes out one part of least weight and keeps the rest |
| `Greedy.PushPop` | huffman/huff.py:420 | `heappushpop`: the result is a lightest of the pushed item and the heap, no heavier than the item, and the rest keeps everything else |
| `Greedy.EntryLeaves` | huffman/huff.py:434 | a tree holding the distinct entries as leaves has distinct leaf values and a code for every entry |
| `Greedy.HuffMerge` | huffman/huff.py:416-421 | the merge loop ends in one well-weighted node weighing all parts and holding all their leaves, every merge joining the two lightest parts |
| `HuffPy.HuffTree` | huffman/huff.py:401-421 | `TypeError` exactly for fewer than two entries; otherwise a node weighing the total count, one leaf per entry, built by greedy merges |
| `HuffPy.DepthIsLevels` | huffman/huff.py:308-317 | `depth` bounds every root-to-leaf path plus one and is reached by one |
| `HuffPy.Depth` | huffman/huff.py:308-317 | `depth` counts the root as level one: one more than the height |
| `HuffPy.Layers` | huffman/huff.py:319-331 | `layers[k]` is exactly the parts at distance k, left to right, one layer per level |
| `HuffPy.TreeFromTuple` | huffman/huff.py:355-370 | `Node.from_tuple`: `TypeError` for a non-tuple or fewer than two items, `IndexError` deeper; on nested pairs a unit-weighted tree whose `to_tuple` is the input |
| `HuffPy.Pack` | huffman/huff.py:107-112 | an L-bit string packs into (L + 1) // 8 + 1 bytes that read back as the string when it starts with '1' |
| `HuffPy.PackRoundTrip` | huffman/huff.py:95-129 | packing the guarded codes of `xs` and scanning the bytes past the guard gives back `xs` |
| `HuffPy.AppendCodes` | huffman/huff.py:104-106 | the loop builds "1" and the items' codes, or `KeyError` exactly when an item has no code |
| `HuffPy.ScanLoop` | huffman/huff.py:124-129 | the decode loop from index 1 is the prefix scan of the bits past the guard |
| `HuffPy.CodeMap.constructor` | huffman/huff.py:56-57 | the class dictionaries start empty |
| `HuffPy.CodeMap.Add` | huffman/huff.py:91-93 | `add` records the code in both directions, overwriting |
| `HuffPy.CodeMap.AddCodes` | huffman/huff.py:265-276 | `__add_code__(self.add, code)` adds exactly the tree's code calls to both maps |
| `HuffPy.CodeMap.Code` | huffman/huff.py:342-353 | `Node.code` adds the tree's codes on top of what the shared dictionaries already hold |
| `HuffPy.CodeMap.OfTree` | huffman/huff.py:342-353 | a map holding only the tree's codes: inverse and decodable for a root with distinct leaf values |
| `HuffPy.CodeMap.AddTupleCodes` | huffman/huff.py:62-69 | `__from_tuple__(value, code)` succeeds exactly on nested pairs (`IndexError` otherwise) and adds the calls made before it returned or failed |
| `HuffPy.CodeMap.FromTuple` | huffman/huff.py:71-89 | `from_tuple`: `TypeError` with nothing added for a non-tuple or fewer than two items; otherwise the codes "0..." of the first item and "1..." of the second |
| `HuffPy.CodeMap.Encode` | huffman/huff.py:95-112 | `encode` is the guarded, packed codes, `KeyError` for an item without a code |
| `HuffPy.CodeMap.Decode` | huffman/huff.py:114-129 | the decode loop as meant: the scan of the bytes' bits past the guard bit |
| `HuffPy.Attempted` | huffman/huff.py:62-69 | on nested pairs, the calls `__from_tuple__` makes are the tree's code calls |
| `HuffPy.CodeMapRoundTrip` | huffman/huff.py:95-129 | with decodable maps, `encode` fails exactly on a missing or non-binary code and otherwise decodes back to the input |
| `HuffPy.DecodeAsWrittenFails` | huffman/huff.py:126 | the source's `decode` raises `NameError` on every non-empty encoding |
| `HuffPy.DecodeAsWritten` | huffman/huff.py:114-129 | the source's `decode` never yields a symbol: it yields nothing or raises `NameError` |
| `HuffPy.SharedMapsMisdecode` | huffman/huff.py:56-57 | with class-level dictionaries, coding ('a', 'b') and then (('a', 'b'), 'c') makes 'a''s code "00" decode to two 'a's |
| `HuffPy.LengthField` | huffman/huff.py:444 | the header length as two big-endian bytes |
| `HuffPy.FrameSlices` | huffman/huff.py:448-463 | the container's length field, header and payload are recovered by the slices `__decode__` takes |
| `HuffPy.Frame` | huffman/huff.py:444 | the container is 2 + header + payload bytes, and its first two bytes read back as the header length |
| `HuffPy.Payload` | huffman/huff.py:435-444 | the payload bytes render in binary as the guard bit followed by the codes of the input |
| `HuffPy.Decoding` | huffman/huff.py:447-472 | `__decode__` fails only with `SyntaxError` (unreadable header) or `IndexError` (header not nested pairs) |
| `HuffPy.HeaderCalls` | huffman/huff.py:459-461 | the header read back gives the tree's tuple, whose decode-map calls are the tree's code calls |
| `HuffPy.TallyTree` | huffman/huff.py:427-438 | a tree over the input's frequency entries has distinct leaf values and a code for every symbol |
| `HuffPy.FrameRoundTrip` | huffman/huff.py:447-472 | `__decode__` of a frame built from a tree and its codes gives the input back |
| `HuffPy.Decode` | huffman/huff.py:447-472 | the `__decode__` loop computes the container decoding |
| `HuffPy.Encode` | huffman/huff.py:426-444 | `__encode__`: `TypeError` exactly for fewer than two distinct symbols, `OverflowError` for a header of 65536 bytes or more, else the frame of the tree that greedy merges of the counted characters' leaves leave, which `__decode__` reads back to the input |
| `PyBin.BinFromTuple` | pytree/pytree.py:261-286 | `BinNode.from_tuple`: `ChildError` exactly for fewer than two children, `IndexError` deeper; on nested pairs a unit-weighted node whose `to_tuple` is the input |
| `PyBin.BinTupleRoundTrip` | pytree/pytree.py:288-294 | a node to tuple and back is the same node with unit leaf weights |
| `PyBin.PairPartsRoundTrip` | pytree/pytree.py:201-210 | rebuilding a pair of tuples is the sum of the two rebuilt parts |
| `PyBin.BinCode` | pytree/pytree.py:296-303 | `code` calls once per leaf, in order, with a non-empty prefix-free code that is the path to the leaf |
| `PyBin.BinLayers` | pytree/pytree.py:171-180 | `layers[k]` is exactly the parts at distance k, and there are `depth` layers |
| `PyBin.HuffTree` | pytree/pytree.py:464-492 | `ChildError` exactly for fewer than two distinct items; otherwise a node weighing the item count, one leaf per item, built by greedy merges |
| `PyNode.Node.constructor` | pytree/pytree.py:338-340 | `Node(weight, childs)` holds that weight and those children |
| `PyNode.Node.Append` | pytree/pytree.py:350-361 | `n << c` appends c, adds its weight, and keeps the weight the children's total if it was |
| `PyNode.Node.Prepend` | pytree/pytree.py:363-374 | `n >> c` puts c first, adds its weight, and keeps the weight the children's total if it was |
| `PyNode.Node.Extend` | pytree/pytree.py:376-387 | `n \| m` appends m's children and adds m's weight, even when m is n |
| `PyNode.Node.Layers` | pytree/pytree.py:404-410 | `layers[k]` is exactly the parts at distance k; there are `depth` layers whenever `depth` is defined |
| `PyNode.Plus` | pytree/pytree.py:311-320 | `a + b` is a new node over a then b weighing both |
| `PyNode.Size` | pytree/pytree.py:342-348 | the number of nodes and leaves the docstring promises |
| `PyNode.LenOvercounts` | pytree/pytree.py:342-348 | `__len__` as written is that number plus the leaf count less one |
| `PyNode.LenAsWritten` | pytree/pytree.py:342-348 | `__len__` as written counts every leaf at least once |
| `PyNode.TwoLeavesLenFour` | pytree/pytree.py:348 | a node over two leaves has `len` 4 but three parts |
| `PyNode.Build` | pytree/pytree.py:412-420 | `__from_tuple__` gives unit leaves and nodes weighing their leaf count, a node exactly for a tuple |
| `PyNode.FromValue` | pytree/pytree.py:413-420 | the `<<` loop of `__from_tuple__` builds that part |
| `PyNode.FromTuple` | pytree/pytree.py:422-441 | `Node.from_tuple`: `ChildError` exactly for fewer than two children, else a new node built from the tuple |
| `PyNode.ToTuple` | pytree/pytree.py:443-449 | `to_tuple` is a tuple exactly for a node |
| `PyNode.TupleRoundTrip` | pytree/pytree.py:412-449 | a tuple to node and back is the same tuple |
| `PyNode.RebuildRoundTrip` | pytree/pytree.py:412-449 | a node to tuple and back is the node with unit leaves |
| `PyNode.Decimal` | pytree/pytree.py:398 | `str(i)`: decimal digits, a single one exactly below 10 |
| `PyNode.DecimalRoundTrip` | pytree/pytree.py:458 | the digits of `str(i)` read back as i |
| `PyNode.CodeCalls` | pytree/pytree.py:396-398 | `__code__` calls once per leaf, in order, with a code extending the given one |
| `PyNode.Code` | pytree/pytree.py:451-458 | `code` makes the root's calls from the empty code |
| `PyNode.CodesPrefixFree` | pytree/pytree.py:396-398 | with at most ten children per node no code is a prefix of another |
| `PyNode.CodeIsPath` | pytree/pytree.py:457-458 | with at most ten children per node each code spells the child indices down to its leaf |
| `PyNode.NarrowTable` | pytree/pytree.py:451-458 | a narrow node with distinct leaf values gives inverse, decodable maps with non-empty codes |
| `PyNode.WideCodesCollide` | pytree/pytree.py:397-398 | with eleven children two leaves both get code "10" |
| `PyNode.DepthFrom` | pytree/pytree.py:400-402 | `__depth__` is offset plus height, and `ValueError` exactly when some node has no child |
| `PyNode.SetLayer` | pytree/pytree.py:404-410 | `__layer__` extends every layer by exactly the parts at that distance, left to right |
| `HuffJs.Occurence` | huffman/huff.mjs:296-303 | `occurence`: each item once, in order of first appearance, with its exact positive count |
| `HuffJs.DepthAt` | huffman/huff.mjs:92-94 | `_depth(offset)` is the offset plus one plus the height |
| `HuffJs.ShiftedBag` | huffman/huff.mjs:185-186 | writing the first part over the lightest one and shifting takes out exactly that part |
| `HuffJs.Shifted` | huffman/huff.mjs:185-186 | after `_popLight` takes slot i, every other part but the first moves one slot left, and the first part lands in slot i - 1 |
| `HuffJs.StepGreedy` | huffman/huff.mjs:156-167 | merging the two parts popped as lightest extends a greedy run |
| `HuffJs.PopTwice` | huffman/huff.mjs:154-167 | one pass of the constructor loop keeps the loop state: one part fewer, greedy merges, total weight and leaves kept |
| `HuffJs.LastTwo` | huffman/huff.mjs:169 | when two parts remain the root weighs the total count and holds every entry as a leaf |
| `HuffJs.Root.constructor` | huffman/huff.mjs:150-170 | the loop ends with two parts under a well-weighted root of the total count, built by greedy merges |
| `HuffJs.Root.PopLight` | huffman/huff.mjs:176-188 | `_popLight` returns the first part of least weight and removes exactly it, the first part moving into its slot |
| `HuffJs.Root.AsTree` | huffman/huff.mjs:141-170 | the tree of a built root weighs the total count, every node weighs its two parts, and its leaves are the map's entries, each once |
| `HuffJs.Root.Depth` | huffman/huff.mjs:110-112 | `depth` is one more than the longest root-to-leaf path, which some path reaches |
| `HuffJs.Root.GetCodeMap` | huffman/huff.mjs:218-222 | `getCodeMap` fills maps with the tree's path codes: inverse, decodable, binary, no empty code, one for every entry |
| `HuffJs.ValidTable` | huffman/huff.mjs:135-138 | a tree over distinct entries gives inverse, decodable, binary codes for every entry |
| `HuffJs.RootCodes` | huffman/huff.mjs:67-70 | a root's codes are non-empty bit strings |
| `HuffJs.SpelledIsEncoded` | huffman/huff.mjs:257-258 | the `encode` loop appends each item's code |
| `HuffJs.Spelled` | huffman/huff.mjs:257-258 | with bit-string codes, the text `encode` builds is a bit string exactly when every item has a code (a missing one adds "undefined") |
| `HuffJs.Encoding` | huffman/huff.mjs:256-260 | `encode` gives (1 + L) // 8 + 1 bytes, whose bits are padding zeros, the guard bit and the codes when every item has a bit-string code |
| `HuffJs.BinaryPrefix` | huffman/huff.mjs:259 | `parseInt(s, 2)` reads the longest binary prefix |
| `HuffJs.ParseByte` | huffman/huff.mjs:259 | an 8-bit chunk parses to its value |
| `HuffJs.ParseChunks` | huffman/huff.mjs:259 | the chunks of a bit string parse to its bytes |
| `HuffJs.JsPack` | huffman/huff.mjs:259 | an L-bit string gives L // 8 + 1 bytes whose bits are it padded by 8 - L % 8 zeros |
| `HuffJs.ByteString` | huffman/huff.mjs:270-271 | a byte rendered as `toString(2)` padded to eight digits |
| `HuffJs.IndexOfOne` | huffman/huff.mjs:273 | `indexOf('1')`: the first '1', or -1 when there is none |
| `HuffJs.PackedCodes` | huffman/huff.mjs:256-260 | the bytes `encode` writes hold the padding, the guard and the codes, and the codes scan back to the input |
| `HuffJs.RoundTrip` | huffman/huff.mjs:256-287 | decoding from the guard bit found in all the bits gives back every encoded input |
| `HuffJs.AsWrittenRoundTrip` | huffman/huff.mjs:273 | the source's decode round-trips when the guarded length is not a multiple of 8 |
| `HuffJs.AsWrittenZeroByte` | huffman/huff.mjs:273 | when it is a multiple of 8 the source's decode also scans the zero byte and the guard bit as data |
| `HuffJs.DecodeAsWritten` | huffman/huff.mjs:267-287 | the source's `decode`: `TypeError` exactly on no bytes |
| `HuffJs.AsWrittenAgrees` | huffman/huff.mjs:267-287 | the source's `decode` equals the evident one whenever the first byte holds a '1' |
| `HuffJs.Decoding` | huffman/huff.mjs:267-287 | the evident decode: `TypeError` exactly on no bytes |
| `HuffJs.ZeroByteMisread` | huffman/huff.mjs:267-287 | with a -> "0", b -> "1", "abababa" decodes as "aaaaaaaababababa" |
| `HuffJs.CodeMap.constructor` | huffman/huff.mjs:230-233 | both maps start empty |
| `HuffJs.CodeMap.SetBits` | huffman/huff.mjs:135-138 | `setBits(codeMap, bits)` adds exactly the tree's path codes below `bits` to both maps |
| `HuffJs.CodeMap.Encode` | huffman/huff.mjs:256-260 | `encode` writes the padded, guarded codes cut into bytes |
| `HuffJs.CodeMap.Decode` | huffman/huff.mjs:267-287 | `decode` as meant: `TypeError` on no bytes, else the scan past the first '1' of all the bits |
| `HuffJs.CodeMap.ScanBits` | huffman/huff.mjs:276-285 | the buffer loop is the prefix scan of the bits |
| `Heap.Swap` | sort/heap.py:28-29 | exchanging two positions and nothing else |
| `Heap.SwapPermutes` | sort/heap.py:50-51 | a swap keeps the contents |
| `Heap.SwapMirrors` | sort/heap.py:50-51 | swapping items and weights alike keeps each weight the key of its item |
| `Heap.Larger` | sort/heap.py:39-47 | the choice of `i_new` is its first value or a child of i in the heap; started at i it is the heaviest of i and its children |
| `Heap.Sifted` | sort/heap.py:32-52 | `__heapify__` keeps the list's length |
| `Heap.BuildDown` | sort/heap.py:25-26 | the heap-building pass keeps the list's length |
| `Heap.ExtractDown` | sort/heap.py:27-30 | the extraction passes keep the list's length |
| `Heap.SiftedPermutes` | sort/heap.py:32-52 | `__heapify__` only permutes |
| `Heap.SiftedKeepsTail` | sort/heap.py:32-52 | `__heapify__(n, i)` leaves positions n and beyond alone |
| `Heap.HeapSorted` | sort/heap.py:22-30 | `__sort__` over the `length` field keeps the list's length and contents |
| `Heap.SortKeepsTail` | sort/heap.py:22-30 | `__sort__` never moves the items at positions `length` and beyond |
| `Heap.ShortSortStill` | sort/heap.py:22-30 | with `length` at most 1, `__sort__` moves nothing |
| `Heap.BuildPermutes` | sort/heap.py:25-26 | the heap-building pass only permutes |
| `Heap.ExtractPermutes` | sort/heap.py:27-30 | the extraction passes only permute |
| `Heap.SiftMakesHeap` | sort/heap.py:39-52 | the sift-down started at i, as intended, repairs the one broken position into a heap |
| `Heap.HeapTop` | sort/heap.py:27-28 | the top of a heap is its heaviest element |
| `Heap.BuildMakesHeap` | sort/heap.py:25-26 | the intended building pass leaves a heap |
| `Heap.ExtractStages` | sort/heap.py:27-30 | the intended extraction passes leave a sorted tail of the heaviest elements |
| `Heap.IntendedSorts` | sort/heap.py:22-52 | with `i_new` starting at i the sort is a sorted permutation |
| `Heap.BuildNothing` | sort/heap.py:25-26 | as written, the building pass leaves [10, 1, 5, 8, 0] unchanged |
| `Heap.NotSorted` | sort/heap.py:22-52 | as written, `HeapBin(10, 1, 5, 8, 0)` ends as [0, 1, 8, 5, 10] |
| `Heap.PopIndex` | sort/heap.py:74 | `list.pop(index)` accepts exactly -len <= index < len, counting negatives from the end |
| `Heap.Without` | sort/heap.py:74-75 | removing one position keeps the others in order and the rest of the contents |
| `Heap.HeapBin.constructor` | sort/heap.py:9-20 | `__init__` stores the items sorted as written, with their weights, and `length` equal to their number |
| `Heap.HeapBin.Heapify` | sort/heap.py:32-52 | the in-place recursion swaps items and weights alike as the sift specifies |
| `Heap.HeapBin.Sort` | sort/heap.py:22-30 | the in-place loops over the `length` field give the specified `__sort__` result, weights mirroring items |
| `Heap.HeapBin.Append` | sort/heap.py:54-63 | `append` adds exactly the item, raises `length` by one and re-sorts over it |
| `Heap.HeapBin.Remove` | sort/heap.py:65-78 | `remove(index)` returns and deletes that position, lowers `length` by one and re-sorts over it, or `IndexError` with nothing changed |
| `Heap.HeapBin.Shift` | sort/heap.py:80-88 | `shift` returns and deletes the first item without re-sorting; on an empty heap `IndexError`, the length still decremented |
| `Heap.HeapBin.Pop` | sort/heap.py:90-98 | `pop` returns and deletes the last item without re-sorting; on an empty heap `IndexError`, the length still decremented |
| `Heap.HeapBin.ShiftIntended` | sort/heap.py:80-88 | `shift` lowering `length` only after a successful pop keeps `length` equal to `len(self)` |
| `Heap.HeapBin.PopIntended` | sort/heap.py:90-98 | `pop` lowering `length` only after a successful pop keeps `length` equal to `len(self)` |
| `Heap.StaleShift` | sort/heap.py:54-88 | as written, `HeapBin()`, a failed `shift()`, then `append(2)` and `append(1)` leave [2, 1] with `length` 1 |
| `Heap.StalePop` | sort/heap.py:54-98 | the same with a failed `pop()` |
| `Heap.SyncedShift` | sort/heap.py:54-88 | with the intended `shift`, the same calls leave [1, 2] with `length` 2 |
| `Heap.TwoSorted` | sort/heap.py:22-30 | `__sort__` of 2, 1 over both positions gives 1, 2 |
| `Fire.Code` | automata/fire.py:31-34 | the four cell states are the integers 0 to 3 |
| `Fire.CodesDistinct` | automata/fire.py:31-34 | distinct states have distinct codes |
| `Fire.Rgb` | automata/fire.py:31-34 | each state's colour components are bytes |
| `Fire.NextsAreNeighbours` | automata/fire.py:21-25 | `NEXTS` is the eight distinct non-zero unit offsets, and every such offset is in it |
| `Fire.Set` | automata/fire.py:79 | a cell assignment changes that cell only |
| `Fire.CountSet` | automata/fire.py:93 | a cell assignment moves the count of a state by at most one, as the old and new states say |
| `Fire.KeptInside` | automata/fire.py:82-84 | a neighbour the bounds test does not skip is inside the grid |
| `Fire.Candidates` | automata/fire.py:80-87 | every queued neighbour is inside the grid and uninfected |
| `Fire.CandidatesNear` | automata/fire.py:80-87 | every queued neighbour is the burning cell moved by one of the offsets |
| `Fire.Neighbours` | automata/fire.py:80-87 | the neighbours queued for a cell are inside the grid |
| `Fire.Burn` | automata/fire.py:77-87 | the first phase keeps the grid's shape and queues only cells inside it |
| `Fire.Ignite` | automata/fire.py:89-95 | the second phase keeps the shape and lights at most the cells queued |
| `Fire.BurnCells` | automata/fire.py:78-79 | the popped spreaders become infected and no other cell changes |
| `Fire.BurnFound` | automata/fire.py:80-87 | every queued cell is next to a popped spreader |
| `Fire.IgniteEffect` | automata/fire.py:89-95 | exactly the queued cells still uninfected become spread, each once, and the uninfected count drops by their number |
| `Fire.UpdateEffect` | automata/fire.py:74-96 | after `update` spreaders are infected; a cell is newly spread iff it is in the new queue, and is next to an old spreader; nothing else changes; the uninfected count drops by the new spreaders |
| `Fire.Wrap` | automata/fire.py:66-69 | an index from -n to n - 1 becomes the position in [0, n) that Python's negative indexing means, the same modulo n; a non-negative index is kept; one below -n stays negative |
| `Fire.HalfOf` | automata/fire.py:43 | `int(0.5 * cells)` is half the cells, rounded down |
| `Fire.BlankGrid` | automata/fire.py:40 | a rows x cols grid of blank cells |
| `Fire.BlankCount` | automata/fire.py:40 | a blank grid has no uninfected cell |
| `Fire.AutoMatrix.constructor` | automata/fire.py:39-50 | the chosen cells uninfected, the others blank, the counters consistent, the queue empty |
| `Fire.AutoMatrix.SpreadAt` | automata/fire.py:65-72 | `spread(i, j)` queues the wrapped coordinate first and moves the counters by one, touching no cell |
| `Fire.AutoMatrix.Update` | automata/fire.py:74-96 | `update` adds the old spreader count to the infected, and leaves the grid and queue the two phases specify with counters to match |
| `Fire.AutoMatrix.BurnQueue` | automata/fire.py:76-87 | the first loop infects the popped spreaders and queues their uninfected neighbours |
| `Fire.AutoMatrix.QueueNeighbours` | automata/fire.py:80-87 | the inner loop queues exactly the cell's uninfected in-grid neighbours, in `NEXTS` order |
| `Fire.AutoMatrix.IgniteQueue` | automata/fire.py:89-95 | the second loop lights the queued cells still uninfected and requeues exactly them |
| `CArray.Message` | cgraph/src/cli.h:16-20 | each error tag has its message |
| `CArray.CDivTruncates` | cgraph/src/array.c:32 | C's `/` truncates toward zero |
| `CArray.Array.constructor` | cgraph/src/array.h:26-31 | an `Array` holds its content with the matching length |
| `CArray.Array.Append` | cgraph/src/array.c:15-19 | `append_int` stores the item last and grows the length by one |
| `CArray.Array2D.constructor` | cgraph/src/array.h:36-40 | an empty `Array2D` |
| `CArray.Array2D.Append` | cgraph/src/array.c:21-25 | `append_array` stores the row last and grows the length by one |
| `CArray.RangeErrors` | cgraph/src/array.c:29-33 | `range` fails with `ERROR_ARRAY_GAP` iff the gap is 0, `ERROR_ARRAY_ILLOGICAL` iff the gap points away from `last`, `ERROR_ARRAY_EMPTY` iff the span is shorter than the gap, and succeeds otherwise |
| `CArray.RangeSteps` | cgraph/src/array.c:32-39 | a range starts at `first`, steps by `gap`, has the truncated quotient length, and stays on `first`'s side of `last` |
| `CArray.Ranged` | cgraph/src/array.c:27-41 | a successful `range` is non-empty; a failure carries one of the three array tags |
| `CArray.Range` | cgraph/src/array.c:27-41 | `range` is the specified range or error, in a new array |
| `CArray.ScannedFacts` | cgraph/src/array.c:48-54 | after k steps the running max is at least 0 and every seen element, and the running min is the least seen |
| `CArray.Scanned` | cgraph/src/array.c:45-54 | the running max never drops below its start 0, and the running min never rises above element 0 |
| `CArray.ExtremesBounds` | cgraph/src/array.c:43-56 | `min` is the true minimum; `max` is the true maximum when some element is at least 0, and 0 when all are negative |
| `CArray.Extremes` | cgraph/src/array.c:43-56 | every element lies between the two extremes, and the minimum is an element |
| `CArray.Extremum` | cgraph/src/array.c:43-56 | the loop computes those extremes |
| `CArray.FromFn` | cgraph/src/array.c:80-94 | `fromFn` fails iff x is empty; otherwise it keeps x, sets y[i] = fn(x[i]), and takes both extremes |
| `CArray.From2D` | cgraph/src/array.c:96-111 | `from2D` takes each row's first and second columns as x and y, with their extremes |
| `CGraph.WidthCases` | cgraph/src/graph.c:7-18 | the printed width is at least 1, 1 for zero, the digit count for a positive number, and one more than its magnitude's for a negative one |
| `CGraph.Width` | cgraph/src/graph.c:7-18 | the printed width is at least 1, and at least 2 for a negative number (its `-` and a digit) |
| `CGraph.DropDigit` | cgraph/src/graph.c:14 | truncating division by 10 removes one digit |
| `CGraph.Digit` | cgraph/src/graph.c:7-18 | `digit` computes that width |
| `CGraph.DigitExt` | cgraph/src/graph.c:20-28 | `digit_ext` is the larger of the two widths |
| `CGraph.CharMult` | cgraph/src/graph.c:30-38 | `charmult` gives exactly `occurence` new cells, each `src`, with no terminator |

## Left out

- Tree drawing (`__tree__`, `tree`, `_toTree`), `__repr__` and `spread` visitors: presentation only.
- The `hfmn` codec registration (`IncrementalEncoder`, `IncrementalDecoder`, `register`): library plumbing around `__encode__` / `__decode__`.
- `str(tuple)` and `eval`: `HuffPy.TupleText` stands for them as a pair of functions. The round trip `HuffPy.FrameRoundTrip` assumes that `eval` reads back what `str` wrote for nested pairs of characters (`HuffPy.ReadsBack`).
- `heapify` / `heappop` / `heappushpop`: modelled as removal of some lightest part from a sequence.
- Greedy.PopMin: promises some lightest part, not the one `heapq`'s sift order picks among equal weights. The source promises no tie-break either.
- HuffPy.CodeMap.constructor: the source's dictionaries are class attributes shared by every instance. One `CodeMap` object here stands for that shared pair, so a second `CodeMap()` call is not modelled as creating anything. `HuffPy.SharedMapsMisdecode` shows the consequence.
- HuffJs.Root.constructor: requires at least two entries. With fewer, the source's loop never reaches two parts and never ends.
- HuffJs.CodeMap.Decode: requires that "" is not a code. Only then is the source's inner loop over all of `binMap` equal to one membership test. `getCodeMap` never makes an empty code.
- Heap: `key` is any function to integers. Python comparisons of other weight types are not modelled.
- HuffPy.CodeMap.Encode: treats a code as valid only when it is made of '0' and '1', and gives `ValueError` otherwise. Python's `int(s, 2)` also accepts '_' between digits and trailing whitespace, so a code such as "1_0" passed to `add` encodes in the source. Codes built from a tree are always '0'/'1' strings. `HuffPy.CodeMapRoundTrip`'s "non-binary" case has the same restriction.
- PyNode.Node.Append, PyNode.Node.Prepend, PyNode.Node.Extend: the children are values here. pytree's `<<`, `>>` and `|` store the child `Node` object itself, so a later change to a child (`root << sub; sub << leaf`) changes the parent's tree without changing the parent's `weight`. That aliasing, and the broken "weight is the children's total" it causes, are not modelled.
- Fire.AutoMatrix.Update: the queue is unbounded. The source's `deque(maxlen=int(n_uninfected * .5))` silently drops entries from the other end once full. The model therefore describes an `update` whose queue never overflows.
- Fire.AutoMatrix.constructor: takes the uninfected cells as a parameter. The source draws them with `random.sample`.
- Fire.AutoMatrix.Update: requires every queued coordinate inside the grid. `spread` does no bounds check, and an outside coordinate makes the source raise `IndexError` or wrap a second time.
- `AutoMatrixCanvas`, `AutoMatrixShell`, tkinter and the colour hex/escape strings: presentation.
- automata/fire_v2.py, matrix/matrix.js, tools/, bench.py and huffman/bench.py are not part of this model.
- The `exit` inside cgraph's `check` is modelled as the `Exit` result carrying the tag; the printed traceback is not modelled.
- `fromCSV` (file reading), `graph` (terminal drawing), cli.c and main.c: I/O.
- CArray.Range: requires its arguments, `last - first` and `(last - first) / gap` to fit in a C `int`, so it excludes `last - first == INT_MIN` with `gap == -1`. Overflow there is undefined behaviour in C (a trap on x86).
- CArray.Extremum: requires a non-empty array. The source reads element 0 unconditionally.
- CArray.From2D: requires at least one row and two columns per row. The source otherwise reads past its buffers.
- CGraph.CharMult: requires a non-negative count. A negative `int` converts to a huge `size_t` for `calloc`.
- Shared buffers: `fromFn`'s result shares `x`'s content buffer, and `append_array` copies the `Array` struct sharing its content buffer. Here they are values, so later writes through one alias are not seen through the other.
- `realloc` / `malloc` failure: not modelled.

## Findings

| source | as written | input that shows it | evidently intended | confidence | as-written member | corrected member |
|---|---|---|---|---|---|---|
| huffman/huff.mjs:273 | the guard bit is searched in the first byte only (`encoded[0].indexOf('1')`) | a -> "0", b -> "1", "abababa": "1" + codes is 8 bits, the first byte is all zeros, and decoding gives "aaaaaaaababababa" | search the guard bit in all the bits | high (not executed) | `HuffJs.ZeroByteMisread` | `HuffJs.RoundTrip` |
| sort/heap.py:39 | `i_new` starts at 0, so line 46 compares the left child with position 0 and line 49 treats "no move" as index 0 | `HeapBin(10, 1, 5, 8, 0)` ends as [0, 1, 8, 5, 10] | `i_new = i`, and test `i_new != i` at line 49 | high (not executed) | `Heap.NotSorted` | `Heap.IntendedSorts` |
| sort/heap.py:86 | `shift` lowers `length` before popping, so on an empty heap `length` drops although `IndexError` is raised, and stays below `len(self)` | `HeapBin()`, a failed `shift()`, then `append(2)`, `append(1)`: both re-sorts run over the stale `length` (0, then 1) and the heap stays [2, 1] | lower `length` after the pop succeeds, keeping it equal to `len(self)` | high (not executed) | `Heap.StaleShift` | `Heap.HeapBin.ShiftIntended` |
| sort/heap.py:96 | `pop` lowers `length` before popping, with the same effect | `HeapBin()`, a failed `pop()`, then `append(2)`, `append(1)`: the heap stays [2, 1] | lower `length` after the pop succeeds | high (not executed) | `Heap.StalePop` | `Heap.HeapBin.PopIntended` |
| huffman/huff.py:126 | `decode` reads `encoded`, a name not defined there | any non-empty encoding raises `NameError` | read `stdin[i]` | high (not executed) | `HuffPy.DecodeAsWrittenFails` | `HuffPy.CodeMapRoundTrip` |
| huffman/huff.py:56-57 | the code dictionaries are class attributes shared by every `CodeMap` | coding ('a', 'b') then (('a', 'b'), 'c'): "00" decodes to "aa" | per-instance dictionaries | high (not executed) | `HuffPy.SharedMapsMisdecode` | `HuffPy.CodeMap.OfTree` |
| pytree/pytree.py:348 | `__len__` adds the children's lengths and the child count, counting leaf children twice | a node over two leaves has `len` 4 but three fragments | the number of fragments | high (not executed) | `PyNode.TwoLeavesLenFour` | `PyNode.Size` |
