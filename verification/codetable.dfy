/**
 * Code tables: the (code, value) calls a tree traversal makes, the two maps
 * they fill in insertion order, prefix-freeness, and the bit-by-bit
 * decoding scan that all three codecs use.
 */
module CodeTable {
  import opened Bits

  /** The values of the calls are pairwise different. */
  ghost predicate DistinctValues<T>(calls: seq<(string, T)>) {
    forall i, j :: 0 <= i < |calls| && 0 <= j < |calls| && i != j ==> calls[i].1 != calls[j].1
  }

  /** No call's code is a prefix of another call's code (so no two codes are equal). */
  predicate PrefixFree<T>(calls: seq<(string, T)>) {
    forall i, j :: 0 <= i < |calls| && 0 <= j < |calls| && i != j ==> !(calls[i].0 <= calls[j].0)
  }

  /** Two prefix-free call lists, none of whose codes is a prefix of the other's, stay prefix-free together. */
  lemma PrefixFreeConcat<T>(a: seq<(string, T)>, b: seq<(string, T)>)
    requires PrefixFree(a) && PrefixFree(b)
    requires forall i, j :: 0 <= i < |a| && 0 <= j < |b| ==> !(a[i].0 <= b[j].0) && !(b[j].0 <= a[i].0)
    ensures PrefixFree(a + b)
  {
    var c := a + b;
    forall i, j | 0 <= i < |c| && 0 <= j < |c| && i != j ensures !(c[i].0 <= c[j].0) {
      if i < |a| && j < |a| {
        assert c[i] == a[i] && c[j] == a[j];
      } else if i >= |a| && j >= |a| {
        assert c[i] == b[i - |a|] && c[j] == b[j - |a|];
      } else if i < |a| {
        assert c[i] == a[i] && c[j] == b[j - |a|];
      } else {
        assert c[i] == b[i - |a|] && c[j] == a[j];
      }
    }
  }

  /** value -> code, inserting the calls in order (a later call overwrites). */
  function EncodeMap<T(==)>(calls: seq<(string, T)>): map<T, string> {
    if calls == [] then map[]
    else EncodeMap(calls[..|calls| - 1])[calls[|calls| - 1].1 := calls[|calls| - 1].0]
  }

  /** code -> value, inserting the calls in order (a later call overwrites). */
  function DecodeMap<T>(calls: seq<(string, T)>): map<string, T> {
    if calls == [] then map[]
    else DecodeMap(calls[..|calls| - 1])[calls[|calls| - 1].0 := calls[|calls| - 1].1]
  }

  /** Filling the maps with `a` then `b` is filling them with `a` and letting `b` overwrite. */
  lemma {:induction false} MapsConcat<T>(a: seq<(string, T)>, b: seq<(string, T)>)
    ensures EncodeMap(a + b) == EncodeMap(a) + EncodeMap(b)
    ensures DecodeMap(a + b) == DecodeMap(a) + DecodeMap(b)
  {
    EncodeConcat(a, b);
    DecodeConcat(a, b);
  }

  lemma {:induction false} EncodeConcat<T>(a: seq<(string, T)>, b: seq<(string, T)>)
    ensures EncodeMap(a + b) == EncodeMap(a) + EncodeMap(b)
    decreases |b|
  {
    if b == [] {
      assert a + b == a;
    } else {
      var n := |b| - 1;
      assert (a + b)[..|a + b| - 1] == a + b[..n];
      EncodeConcat(a, b[..n]);
      UnionUpdate(EncodeMap(a), EncodeMap(b[..n]), b[n].1, b[n].0);
    }
  }

  lemma {:induction false} DecodeConcat<T>(a: seq<(string, T)>, b: seq<(string, T)>)
    ensures DecodeMap(a + b) == DecodeMap(a) + DecodeMap(b)
    decreases |b|
  {
    if b == [] {
      assert a + b == a;
    } else {
      var n := |b| - 1;
      assert (a + b)[..|a + b| - 1] == a + b[..n];
      DecodeConcat(a, b[..n]);
      UnionUpdate(DecodeMap(a), DecodeMap(b[..n]), b[n].0, b[n].1);
    }
  }

  /** Updating the right side of a union is updating the union. */
  lemma UnionUpdate<K, V>(m: map<K, V>, b: map<K, V>, k: K, v: V)
    ensures m + b[k := v] == (m + b)[k := v]
  {
  }

  /** The two maps are mutually inverse. */
  ghost predicate Inverse<T>(e: map<T, string>, d: map<string, T>) {
    (forall v :: v in e ==> e[v] in d && d[e[v]] == v) &&
    (forall c :: c in d ==> d[c] in e && e[d[c]] == c)
  }

  /** The keys of the encode map are exactly the values of the calls. */
  lemma {:induction false} EncodeMapKeys<T>(calls: seq<(string, T)>, v: T)
    ensures v in EncodeMap(calls) <==> exists i :: 0 <= i < |calls| && calls[i].1 == v
  {
    if calls != [] {
      var n := |calls| - 1;
      EncodeMapKeys(calls[..n], v);
      if v in EncodeMap(calls[..n]) {
        var i :| 0 <= i < n && calls[..n][i].1 == v;
        assert calls[i].1 == v;
      }
      if exists i :: 0 <= i < |calls| && calls[i].1 == v {
        var i :| 0 <= i < |calls| && calls[i].1 == v;
        if i < n {
          assert calls[..n][i].1 == v;
        }
      }
    }
  }

  /** The keys of the decode map are exactly the codes of the calls. */
  lemma {:induction false} DecodeMapKeys<T>(calls: seq<(string, T)>, c: string)
    ensures c in DecodeMap(calls) <==> exists i :: 0 <= i < |calls| && calls[i].0 == c
  {
    if calls != [] {
      var n := |calls| - 1;
      DecodeMapKeys(calls[..n], c);
      if c in DecodeMap(calls[..n]) {
        var i :| 0 <= i < n && calls[..n][i].0 == c;
        assert calls[i].0 == c;
      }
      if exists i :: 0 <= i < |calls| && calls[i].0 == c {
        var i :| 0 <= i < |calls| && calls[i].0 == c;
        if i < n {
          assert calls[..n][i].0 == c;
        }
      }
    }
  }

  /** With distinct values, the encode map sends each call's value to that call's code. */
  lemma {:induction false} EncodeMapAt<T>(calls: seq<(string, T)>, i: nat)
    requires DistinctValues(calls) && i < |calls|
    ensures calls[i].1 in EncodeMap(calls) && EncodeMap(calls)[calls[i].1] == calls[i].0
  {
    var n := |calls| - 1;
    if i < n {
      assert calls[i].1 != calls[n].1;
      assert DistinctValues(calls[..n]);
      EncodeMapAt(calls[..n], i);
    }
  }

  /** With distinct codes, the decode map sends each call's code to that call's value. */
  lemma {:induction false} DecodeMapAt<T>(calls: seq<(string, T)>, i: nat)
    requires PrefixFree(calls) && i < |calls|
    ensures calls[i].0 in DecodeMap(calls) && DecodeMap(calls)[calls[i].0] == calls[i].1
  {
    var n := |calls| - 1;
    if i < n {
      assert calls[i].0 != calls[n].0 by { assert !(calls[i].0 <= calls[n].0); }
      assert PrefixFree(calls[..n]);
      DecodeMapAt(calls[..n], i);
    }
  }

  /** The index of a call whose value is `v`. */
  lemma ValueIndex<T>(calls: seq<(string, T)>, v: T) returns (i: nat)
    requires v in EncodeMap(calls)
    ensures i < |calls| && calls[i].1 == v
  {
    EncodeMapKeys(calls, v);
    i :| 0 <= i < |calls| && calls[i].1 == v;
  }

  /** The index of a call whose code is `c`. */
  lemma CodeIndex<T>(calls: seq<(string, T)>, c: string) returns (i: nat)
    requires c in DecodeMap(calls)
    ensures i < |calls| && calls[i].0 == c
  {
    DecodeMapKeys(calls, c);
    i :| 0 <= i < |calls| && calls[i].0 == c;
  }

  /**
   * With distinct values and prefix-free codes, the maps filled from the
   * calls are inverse to each other.
   */
  lemma TableInverse<T>(calls: seq<(string, T)>)
    requires DistinctValues(calls) && PrefixFree(calls)
    ensures Inverse(EncodeMap(calls), DecodeMap(calls))
  {
    var e, d := EncodeMap(calls), DecodeMap(calls);
    forall v | v in e ensures e[v] in d && d[e[v]] == v {
      var i := ValueIndex(calls, v);
      EncodeMapAt(calls, i);
      DecodeMapAt(calls, i);
    }
    forall c | c in d ensures d[c] in e && e[d[c]] == c {
      var i := CodeIndex(calls, c);
      EncodeMapAt(calls, i);
      DecodeMapAt(calls, i);
    }
  }

  /**
   * Everything a decoder needs from the maps: each value's code is a
   * non-empty key of the decode map, maps back to the value, and no shorter
   * key is a prefix of it.
   */
  ghost predicate Decodable<T>(e: map<T, string>, d: map<string, T>) {
    forall v :: v in e ==>
      e[v] != [] && e[v] in d && d[e[v]] == v && forall p :: p in d ==> !(p < e[v])
  }

  /** In a prefix-free table no key of the decode map is a proper prefix of a call's code. */
  lemma NoShorterKey<T>(calls: seq<(string, T)>, i: nat, p: string)
    requires PrefixFree(calls) && i < |calls| && p in DecodeMap(calls)
    ensures !(p < calls[i].0)
  {
    var j := CodeIndex(calls, p);
    assert !(calls[j].0 < calls[i].0);
  }

  /** Tables built from prefix-free, non-empty codes of distinct values are decodable. */
  lemma TableDecodable<T>(calls: seq<(string, T)>)
    requires DistinctValues(calls) && PrefixFree(calls)
    requires forall i :: 0 <= i < |calls| ==> calls[i].0 != []
    ensures Decodable(EncodeMap(calls), DecodeMap(calls))
  {
    var e, d := EncodeMap(calls), DecodeMap(calls);
    forall v | v in e
      ensures e[v] != [] && e[v] in d && d[e[v]] == v && forall p :: p in d ==> !(p < e[v])
    {
      var i := ValueIndex(calls, v);
      EncodeMapAt(calls, i);
      DecodeMapAt(calls, i);
      forall p | p in d ensures !(p < e[v]) {
        NoShorterKey(calls, i, p);
      }
    }
  }

  /** The bits of the values' codes, in order. */
  function Encoded<T>(xs: seq<T>, e: map<T, string>): string
    requires forall k :: 0 <= k < |xs| ==> xs[k] in e
  {
    if xs == [] then "" else e[xs[0]] + Encoded(xs[1..], e)
  }

  lemma {:induction false} EncodedSnoc<T>(xs: seq<T>, x: T, e: map<T, string>)
    requires forall k :: 0 <= k < |xs| ==> xs[k] in e
    requires x in e
    ensures Encoded(xs + [x], e) == Encoded(xs, e) + e[x]
  {
    if xs == [] {
      assert [x][1..] == [];
    } else {
      assert (xs + [x])[1..] == xs[1..] + [x];
      EncodedSnoc(xs[1..], x, e);
    }
  }

  /**
   * The decoding scan: append one bit to the buffer; when the buffer is a
   * code, emit its value and clear the buffer. Returns what was emitted and
   * the buffer left over at the end.
   */
  function Scan<T>(d: map<string, T>, bits: string, buf: string): (seq<T>, string)
    decreases |bits|
  {
    if bits == [] then ([], buf)
    else
      var b := buf + [bits[0]];
      if b in d then
        var r := Scan(d, bits[1..], "");
        ([d[b]] + r.0, r.1)
      else Scan(d, bits[1..], b)
  }

  /** Scanning one complete code from a partly filled buffer emits its value once. */
  lemma {:induction false} ScanCode<T>(d: map<string, T>, c: string, k: nat, rest: string)
    requires c in d && k < |c|
    requires forall p :: p in d ==> !(p < c)
    ensures var r := Scan(d, rest, "");
      Scan(d, c[k..] + rest, c[..k]) == ([d[c]] + r.0, r.1)
    decreases |c| - k
  {
    var bits := c[k..] + rest;
    assert bits[0] == c[k];
    assert c[..k] + [c[k]] == c[..k + 1];
    if k + 1 == |c| {
      assert bits[1..] == rest;
      assert c[..k + 1] == c;
    } else {
      assert bits[1..] == c[k + 1..] + rest;
      assert c[..k + 1] < c;
      ScanCode(d, c, k + 1, rest);
    }
  }

  /** Decoding the concatenated codes of a sequence gives the sequence back, with nothing left over. */
  lemma {:induction false} ScanEncoded<T>(e: map<T, string>, d: map<string, T>, xs: seq<T>)
    requires Decodable(e, d)
    requires forall k :: 0 <= k < |xs| ==> xs[k] in e
    ensures Scan(d, Encoded(xs, e), "") == (xs, "")
  {
    if xs != [] {
      var c := e[xs[0]];
      ScanEncoded(e, d, xs[1..]);
      ScanCode(d, c, 0, Encoded(xs[1..], e));
      assert c[0..] == c && c[..0] == "";
      assert [xs[0]] + xs[1..] == xs;
    }
  }

  /** Adding a map to the empty map gives the map itself. */
  lemma EmptyUnion<K, V>(m: map<K, V>)
    ensures map[] + m == m
  {
  }

  lemma MapsSingle<T>(code: string, v: T)
    ensures EncodeMap([(code, v)]) == map[v := code] && DecodeMap([(code, v)]) == map[code := v]
  {
    assert [(code, v)][..0] == [];
  }

  /** Filling maps `e`, `d` with `a` and then with `b` is filling them with `a + b`. */
  lemma MapsAppend<T>(e: map<T, string>, d: map<string, T>, a: seq<(string, T)>, b: seq<(string, T)>)
    ensures (e + EncodeMap(a)) + EncodeMap(b) == e + EncodeMap(a + b)
    ensures (d + DecodeMap(a)) + DecodeMap(b) == d + DecodeMap(a + b)
  {
    MapsConcat(a, b);
    UnionAssoc(e, EncodeMap(a), EncodeMap(b));
    UnionAssoc(d, DecodeMap(a), DecodeMap(b));
  }

  lemma UnionAssoc<K, V>(a: map<K, V>, b: map<K, V>, c: map<K, V>)
    ensures (a + b) + c == a + (b + c)
  {
  }

  /** Bit-string codes concatenate to a bit string. */
  lemma {:induction false} EncodedBits<T>(xs: seq<T>, e: map<T, string>)
    requires forall k :: 0 <= k < |xs| ==> xs[k] in e && IsBits(e[xs[k]])
    ensures IsBits(Encoded(xs, e))
  {
    if xs != [] {
      EncodedBits(xs[1..], e);
    }
  }
}
