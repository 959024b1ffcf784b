/**
 * Bit strings as the sources write them (strings of '0' and '1'), their
 * unsigned value, and the two integer conversions the Python codec goes
 * through: `int(bits, 2).to_bytes(k, "big")` and
 * `format(int.from_bytes(bytes, "big"), "0b")`.
 */
module Bits {

  type byte = x: int | 0 <= x < 256

  predicate IsBits(s: string) {
    forall i :: 0 <= i < |s| ==> s[i] == '0' || s[i] == '1'
  }

  /** A guard bit in front changes nothing about being a bit string. */
  lemma GuardBits(s: string)
    ensures IsBits("1" + s) <==> IsBits(s)
  {
    var g := "1" + s;
    assert forall k :: 0 <= k < |s| ==> g[k + 1] == s[k];
  }

  function Zeros(n: nat): (z: string)
    ensures |z| == n && IsBits(z)
    ensures forall i :: 0 <= i < n ==> z[i] == '0'
  {
    seq(n, _ => '0')
  }

  /** The padding in front of `len` bits fills a byte: between one and eight zeros, eight only for whole bytes. */
  lemma PadWidth(len: nat)
    ensures 0 < 8 - len % 8 <= 8
    ensures len % 8 != 0 <==> 8 - len % 8 < 8
  {
  }

  function Pow2(n: nat): (p: nat)
    ensures p >= 1
  {
    if n == 0 then 1 else 2 * Pow2(n - 1)
  }

  /** The unsigned value of a bit string, most significant bit first. */
  function Unsigned(s: string): nat {
    if s == [] then 0 else 2 * Unsigned(s[..|s| - 1]) + (if s[|s| - 1] == '1' then 1 else 0)
  }

  /** The unsigned value of a byte string, most significant byte first. */
  function BytesValue(bs: seq<byte>): nat {
    if bs == [] then 0 else 256 * BytesValue(bs[..|bs| - 1]) + bs[|bs| - 1]
  }

  lemma {:induction false} ValueBound(s: string)
    ensures Unsigned(s) < Pow2(|s|)
  {
    if s != [] {
      ValueBound(s[..|s| - 1]);
    }
  }

  lemma {:induction false} Pow2Mono(m: nat, n: nat)
    requires m <= n
    ensures Pow2(m) <= Pow2(n)
  {
    if m < n {
      Pow2Mono(m, n - 1);
    }
  }

  /** The `n`-bit rendering of `v`, most significant bit first. */
  function BitsOf(v: nat, n: nat): (s: string)
    requires v < Pow2(n)
    ensures |s| == n && IsBits(s) && Unsigned(s) == v
  {
    if n == 0 then "" else
      var s := BitsOf(v / 2, n - 1) + (if v % 2 == 1 then "1" else "0");
      assert s[..|s| - 1] == BitsOf(v / 2, n - 1);
      s
  }

  lemma {:induction false} BitsOfValue(s: string)
    requires IsBits(s)
    ensures Unsigned(s) < Pow2(|s|) && BitsOf(Unsigned(s), |s|) == s
  {
    ValueBound(s);
    if s != [] {
      BitsOfValue(s[..|s| - 1]);
      assert s == s[..|s| - 1] + [s[|s| - 1]];
    }
  }

  lemma Double(x: nat, p: nat)
    ensures 2 * (x * p) == x * (2 * p)
  {
  }

  /** Value of a concatenation: the left part is shifted by the length of the right. */
  lemma {:induction false} ValueConcat(a: string, b: string)
    ensures Unsigned(a + b) == Unsigned(a) * Pow2(|b|) + Unsigned(b)
  {
    if b == [] {
      assert a + b == a;
    } else {
      var b' := b[..|b| - 1];
      var ab := a + b;
      assert ab[..|ab| - 1] == a + b' && ab[|ab| - 1] == b[|b| - 1];
      ValueConcat(a, b');
      Double(Unsigned(a), Pow2(|b'|));
    }
  }

  /** The bytes whose bit rendering is `s`, eight bits per byte. */
  function Chunk8(s: string): (bs: seq<byte>)
    requires IsBits(s) && |s| % 8 == 0
    ensures |bs| == |s| / 8
    decreases |s|
  {
    if s == [] then [] else
      ValueBound(s[..8]);
      [Unsigned(s[..8]) as byte] + Chunk8(s[8..])
  }

  /** The eight-bit renderings of the bytes, concatenated. */
  function Unchunk(bs: seq<byte>): (s: string)
    ensures |s| == 8 * |bs| && IsBits(s)
  {
    if bs == [] then "" else Unchunk(bs[..|bs| - 1]) + BitsOf(bs[|bs| - 1], 8)
  }

  lemma {:induction false} UnchunkCons(b: byte, bs: seq<byte>)
    ensures Unchunk([b] + bs) == BitsOf(b, 8) + Unchunk(bs)
    decreases |bs|
  {
    if bs == [] {
      assert ([b] + bs)[..0] == [];
    } else {
      var init := bs[..|bs| - 1];
      assert ([b] + bs)[..|bs|] == [b] + init;
      UnchunkCons(b, init);
    }
  }

  lemma {:induction false} UnchunkChunk(s: string)
    requires IsBits(s) && |s| % 8 == 0
    ensures Unchunk(Chunk8(s)) == s
    decreases |s|
  {
    if s != [] {
      var head, tail := s[..8], s[8..];
      BitsOfValue(head);
      var b := Unsigned(head) as byte;
      assert Chunk8(s) == [b] + Chunk8(tail);
      UnchunkChunk(tail);
      UnchunkCons(b, Chunk8(tail));
      assert s == head + tail;
    }
  }

  lemma {:induction false} UnchunkValue(bs: seq<byte>)
    ensures Unsigned(Unchunk(bs)) == BytesValue(bs)
  {
    if bs != [] {
      var init, last := bs[..|bs| - 1], bs[|bs| - 1];
      UnchunkValue(init);
      ValueConcat(Unchunk(init), BitsOf(last, 8));
      assert Pow2(8) == 256;
      assert Unsigned(Unchunk(bs)) == Unsigned(Unchunk(init)) * 256 + last;
    }
  }

  lemma {:induction false} ValueLeadingZeros(n: nat, s: string)
    ensures Unsigned(Zeros(n) + s) == Unsigned(s)
  {
    ValueConcat(Zeros(n), s);
    ZerosValue(n);
  }

  lemma {:induction false} ZerosValue(n: nat)
    ensures Unsigned(Zeros(n)) == 0
  {
    if n > 0 {
      assert Zeros(n)[..n - 1] == Zeros(n - 1);
      ZerosValue(n - 1);
    }
  }

  /**
   * `int(s, 2).to_bytes(k, "big")`: the `k` bytes whose big-endian value is
   * the value of `s`, that is `s` left-padded with zeros to `8 * k` bits and
   * cut into bytes. The callers always pass a string that fits.
   */
  function IntToBytes(s: string, k: nat): (bs: seq<byte>)
    requires IsBits(s) && |s| <= 8 * k
    ensures |bs| == k && BytesValue(bs) == Unsigned(s)
    ensures Unchunk(bs) == Zeros(8 * k - |s|) + s
  {
    var padded := Zeros(8 * k - |s|) + s;
    UnchunkChunk(padded);
    UnchunkValue(Chunk8(padded));
    ValueLeadingZeros(8 * k - |s|, s);
    Chunk8(padded)
  }

  function StripZeros(s: string): string {
    if s != [] && s[0] == '0' then StripZeros(s[1..]) else s
  }

  /** A string is its leading zeros followed by the rest. */
  lemma {:induction false} StripZerosSplit(s: string)
    ensures |StripZeros(s)| <= |s|
    ensures s == Zeros(|s| - |StripZeros(s)|) + StripZeros(s)
    decreases |s|
  {
    if s != [] && s[0] == '0' {
      StripZerosSplit(s[1..]);
      var n := |s[1..]| - |StripZeros(s[1..])|;
      assert Zeros(n + 1) == "0" + Zeros(n);
    } else {
      assert Zeros(0) == "";
    }
  }

  lemma {:induction false} StripZerosValue(s: string)
    requires IsBits(s)
    ensures var t := StripZeros(s); IsBits(t) && Unsigned(t) == Unsigned(s) && (t == [] || t[0] == '1')
    decreases |s|
  {
    if s != [] && s[0] == '0' {
      StripZerosValue(s[1..]);
      assert s == Zeros(1) + s[1..];
      ValueLeadingZeros(1, s[1..]);
    }
  }

  /**
   * `format(int.from_bytes(bs, "big"), "0b")`: the binary digits of the
   * big-endian value of `bs`, without leading zeros ("0" for zero).
   */
  function Binary(bs: seq<byte>): (s: string)
    ensures IsBits(s) && Unsigned(s) == BytesValue(bs)
    ensures s == "0" || (s != [] && s[0] == '1')
  {
    var t := StripZeros(Unchunk(bs));
    StripZerosValue(Unchunk(bs));
    UnchunkValue(bs);
    if t == "" then "0" else t
  }

  lemma {:induction false} StripPadding(n: nat, s: string)
    requires s != [] && s[0] == '1'
    ensures StripZeros(Zeros(n) + s) == s
  {
    if n > 0 {
      assert (Zeros(n) + s)[1..] == Zeros(n - 1) + s;
      StripPadding(n - 1, s);
    } else {
      assert Zeros(n) + s == s;
    }
  }

  /** Packing a string that starts with '1' and rendering it back is the identity. */
  lemma BinaryOfPacked(s: string, k: nat)
    requires IsBits(s) && |s| <= 8 * k && s != [] && s[0] == '1'
    ensures Binary(IntToBytes(s, k)) == s
  {
    StripPadding(8 * k - |s|, s);
  }
}
