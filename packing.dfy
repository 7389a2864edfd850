/** Encoding the input as a bit string, and packing that bit string into bytes, least
    significant bit first, with the last byte padded with zero bits. */
module Packing {
  import opened Alphabet
  import opened Frequency
  import opened Codes

  // ----- encoding -----

  /** `huffmanCodes[c]`: `operator[]` reads a byte without a code as the empty string. */
  function CodeOf(codes: CodeTable, c: Byte): Code {
    if c in codes then codes[c] else []
  }

  /** The encoded bit string: the codes of the input bytes, in input order. */
  function Encoded(data: seq<Byte>, codes: CodeTable): (bits: Code)
    ensures (forall x | x in data :: |CodeOf(codes, x)| > 0) ==> |bits| >= |data|
  {
    if data == [] then []
    else
      assert forall x | x in data[..|data| - 1] :: x in data;
      Encoded(data[..|data| - 1], codes) + CodeOf(codes, data[|data| - 1])
  }

  /** Encoding distributes over concatenation of inputs. */
  lemma {:induction false} EncodedAppend(a: seq<Byte>, b: seq<Byte>, codes: CodeTable)
    ensures Encoded(a + b, codes) == Encoded(a, codes) + Encoded(b, codes)
    decreases |b|
  {
    if b == [] {
      assert a + b == a;
    } else {
      var b', c := b[..|b| - 1], b[|b| - 1];
      assert (a + b)[..|a + b| - 1] == a + b';
      EncodedAppend(a, b', codes);
    }
  }

  /** The first byte's code comes first. */
  lemma EncodedCons(c: Byte, rest: seq<Byte>, codes: CodeTable)
    ensures Encoded([c] + rest, codes) == CodeOf(codes, c) + Encoded(rest, codes)
  {
    EncodedAppend([c], rest, codes);
    assert [c][..0] == [];
  }

  /** Bytes whose codes are all empty encode to nothing. */
  lemma {:induction false} EncodedWithoutCodes(data: seq<Byte>, codes: CodeTable)
    requires forall x | x in data :: CodeOf(codes, x) == []
    ensures Encoded(data, codes) == []
    decreases |data|
  {
    if data != [] {
      var s := data[..|data| - 1];
      assert forall x | x in s :: x in data;
      EncodedWithoutCodes(s, codes);
    }
  }

  /** The encoding loop of huffmanEncode: `encodedData += huffmanCodes[c]` per input byte. */
  method EncodeBits(data: seq<Byte>, codes: CodeTable) returns (bits: Code)
    ensures bits == Encoded(data, codes)
  {
    bits := [];
    for i := 0 to |data|
      invariant bits == Encoded(data[..i], codes)
    {
      assert data[..i + 1][..i] == data[..i];
      bits := bits + CodeOf(codes, data[i]);
    }
    assert data[..|data|] == data;
  }

  /** The cost of a frequency table under a code table: the sum over its bytes of
      count times code length. */
  ghost function Cost(freq: FreqTable, codes: CodeTable): nat
    decreases |freq|
  {
    if freq == map[] then 0
    else
      var k := AnyKey(freq);
      var here: nat := freq[k] * |CodeOf(codes, k)|;
      var rest: nat := Cost(freq - {k}, codes);
      here + rest
  }

  /** The cost does not depend on which byte is taken out first. */
  lemma {:induction false} CostRemove(freq: FreqTable, codes: CodeTable, k: Byte)
    requires k in freq
    ensures Cost(freq, codes) == freq[k] * |CodeOf(codes, k)| + Cost(freq - {k}, codes)
    decreases |freq|
  {
    var j := AnyKey(freq);
    if j != k {
      CostRemove(freq - {j}, codes, k);
      CostRemove(freq - {k}, codes, j);
      assert freq - {j} - {k} == freq - {k} - {j};
    }
  }

  /** One more occurrence of `c` costs the length of its code. */
  lemma CostIncrement(m: FreqTable, codes: CodeTable, c: Byte)
    ensures Cost(m[c := CountOf(m, c) + 1], codes) == Cost(m, codes) + |CodeOf(codes, c)|
  {
    var m': FreqTable := m[c := CountOf(m, c) + 1];
    var len := |CodeOf(codes, c)|;
    CostRemove(m', codes, c);
    if c in m {
      CostRemove(m, codes, c);
      assert m' - {c} == m - {c};
      assert (m[c] + 1) * len == m[c] * len + len;
    } else {
      assert m' - {c} == m;
    }
  }

  /** The encoded length is the cost of the input's frequency table: every occurrence of a
      byte contributes that byte's code length. */
  lemma {:induction false} EncodedLength(data: seq<Byte>, codes: CodeTable)
    ensures |Encoded(data, codes)| == Cost(FreqOf(data), codes)
    decreases |data|
  {
    if data == [] {
      NothingCostsNothing(data, codes);
    } else {
      EncodedLength(data[..|data| - 1], codes);
      EncodedLengthStep(data, codes);
    }
  }

  lemma NothingCostsNothing(data: seq<Byte>, codes: CodeTable)
    requires data == []
    ensures Cost(FreqOf(data), codes) == 0
  {
    assert FreqOf(data) == map[];
  }

  /** One step of the induction: appending `c` adds its code length on both sides. */
  lemma EncodedLengthStep(data: seq<Byte>, codes: CodeTable)
    requires data != []
    requires |Encoded(data[..|data| - 1], codes)| == Cost(FreqOf(data[..|data| - 1]), codes)
    ensures |Encoded(data, codes)| == Cost(FreqOf(data), codes)
  {
    CostLast(data, codes);
  }

  lemma CostLast(data: seq<Byte>, codes: CodeTable)
    requires data != []
    ensures Cost(FreqOf(data), codes)
            == Cost(FreqOf(data[..|data| - 1]), codes) + |CodeOf(codes, data[|data| - 1])|
  {
    var s, c := data[..|data| - 1], data[|data| - 1];
    assert data == s + [c];
    CostSnoc(s, c, codes);
  }

  /** Appending `c` to the input adds the length of its code to the cost. */
  lemma CostSnoc(s: seq<Byte>, c: Byte, codes: CodeTable)
    ensures Cost(FreqOf(s + [c]), codes) == Cost(FreqOf(s), codes) + |CodeOf(codes, c)|
  {
    var m := FreqOf(s);
    FreqOfSnoc(s, c);
    CostIncrement(m, codes, c);
  }

  // ----- bits of a byte -----

  function Pow2(k: nat): (p: nat)
    ensures p >= 1
  {
    if k == 0 then 1 else 2 * Pow2(k - 1)
  }

  lemma {:induction false} Pow2Mono(j: nat, k: nat)
    requires j <= k
    ensures Pow2(j) <= Pow2(k)
    decreases k
  {
    if j < k {
      Pow2Mono(j, k - 1);
    }
  }

  /** Bit `k` of `x` (`(x >> k) & 1`). */
  function BitAt(x: nat, k: nat): Bit {
    if k == 0 then x % 2 else BitAt(x / 2, k - 1)
  }

  /** The number whose bit `k` is `g[k]`: the OR of `g[k] << k` over the group. */
  function ByteOf(g: Code): (x: nat)
    ensures x < Pow2(|g|)
  {
    if g == [] then 0 else g[0] + 2 * ByteOf(g[1..])
  }

  /** Setting one more bit, above the ones already set, adds its weight. */
  lemma {:induction false} ByteOfSnoc(g: Code, bit: Bit)
    ensures ByteOf(g + [bit]) == ByteOf(g) + bit * Pow2(|g|)
    decreases |g|
  {
    if g == [] {
      assert ([] + [bit])[1..] == [];
    } else {
      assert (g + [bit])[1..] == g[1..] + [bit];
      ByteOfSnoc(g[1..], bit);
    }
  }

  /** Reading bit `k` of a packed group gives back the group's bit `k`, and 0 above it. */
  lemma {:induction false} BitAtByteOf(g: Code, k: nat)
    ensures BitAt(ByteOf(g), k) == if k < |g| then g[k] else 0
    decreases k
  {
    if g == [] {
      BitAtZero(k);
    } else if k > 0 {
      BitAtByteOf(g[1..], k - 1);
    }
  }

  lemma {:induction false} BitAtZero(k: nat)
    ensures BitAt(0, k) == 0
  {
    if k > 0 {
      BitAtZero(k - 1);
    }
  }

  /** One output byte: a group of at most eight bits, bit `b` of the group at bit `b`. */
  function PackGroup(g: Code): Byte
    requires |g| <= 8
  {
    Pow2Mono(|g|, 8);
    ByteOf(g)
  }

  /** `bitset<8>(b).to_string()`: the eight bits of `b`, most significant first. */
  function BitsetString(b: Byte): (s: Code)
    ensures |s| == 8
  {
    seq(8, i requires 0 <= i < 8 => BitAt(b, 7 - i))
  }

  /** The eight bits of `b`, least significant first: the decoder's `reverse`. */
  function UnpackByte(b: Byte): (s: Code)
    ensures |s| == 8
    ensures ByteOf(s) == b
  {
    var s := seq(8, k requires 0 <= k < 8 => BitAt(b, k));
    ByteOfBits(s, b);
    s
  }

  /** Packing the low bits of `x`, least significant first, gives `x` modulo 2^n. */
  lemma {:induction false} ByteOfBits(g: Code, x: nat)
    requires forall k | 0 <= k < |g| :: g[k] == BitAt(x, k)
    ensures ByteOf(g) == x % Pow2(|g|)
    decreases |g|
  {
    if g != [] {
      forall k | 0 <= k < |g| - 1
        ensures g[1..][k] == BitAt(x / 2, k)
      {
        assert BitAt(x, k + 1) == BitAt(x / 2, k);
      }
      ByteOfBits(g[1..], x / 2);
      ModDouble(x, Pow2(|g| - 1));
    }
  }

  /** Splitting off the lowest bit: x mod 2m is its low bit plus twice (x / 2) mod m. */
  lemma ModDouble(x: nat, m: nat)
    requires m > 0
    ensures x % (2 * m) == x % 2 + 2 * ((x / 2) % m)
  {
    var q, r := (x / 2) / m, (x / 2) % m;
    assert x / 2 == q * m + r;
    assert x == q * (2 * m) + (2 * r + x % 2);
    DivModUnique(x, 2 * m, q, 2 * r + x % 2);
  }

  lemma DivModUnique(x: int, d: int, q: int, r: int)
    requires d > 0 && 0 <= r < d && x == q * d + r
    ensures x % d == r
  {
    var q', r' := x / d, x % d;
    assert (q' - q) * d == r - r';
    MulBound(q' - q, d);
  }

  /** A non-zero multiple of `d` is at least `d` away from 0. */
  lemma {:induction false} MulBound(a: int, d: int)
    requires d > 0
    ensures a >= 1 ==> a * d >= d
    ensures a <= -1 ==> a * d <= -d
    decreases if a < 0 then -a else a
  {
    if a > 1 {
      MulBound(a - 1, d);
      assert a * d == (a - 1) * d + d;
    } else if a < -1 {
      MulBound(a + 1, d);
      assert a * d == (a + 1) * d - d;
    }
  }

  /** Unpacking a packed group restores the group followed by zero padding. */
  lemma UnpackGroup(g: Code)
    requires |g| <= 8
    ensures UnpackByte(PackGroup(g)) == g + Zeros(8 - |g|)
  {
    forall k | 0 <= k < 8
      ensures UnpackByte(PackGroup(g))[k] == (g + Zeros(8 - |g|))[k]
    {
      BitAtByteOf(g, k);
    }
  }

  // ----- packing a whole bit string -----

  function Min(a: nat, b: nat): nat {
    if a < b then a else b
  }

  /** The output bytes: each group of eight bits in turn, the last group possibly short. */
  function Pack(bits: Code): (packed: seq<Byte>)
    ensures |packed| == (|bits| + 7) / 8
    decreases |bits|
  {
    if bits == [] then []
    else
      var n := Min(8, |bits|);
      [PackGroup(bits[..n])] + Pack(bits[n..])
  }

  /** The unpacked bits of a byte string, each byte least significant bit first. */
  function Unpack(packed: seq<Byte>): (bits: Code)
    ensures |bits| == 8 * |packed|
  {
    if packed == [] then [] else UnpackByte(packed[0]) + Unpack(packed[1..])
  }

  /** The bits from position `i` on; nothing once `i` is past the end. */
  function From(bits: Code, i: nat): Code {
    if i < |bits| then bits[i..] else []
  }

  /** The packing loop of huffmanEncode: for each `i` stepping by eight, the substring of
      (at most) eight bits starting at `i` becomes one output byte. */
  method PackBits(bits: Code) returns (packed: seq<Byte>)
    ensures packed == Pack(bits)
  {
    packed := [];
    var i := 0;
    assert From(bits, 0) == bits;
    while i < |bits|
      invariant packed + Pack(From(bits, i)) == Pack(bits)
      decreases |bits| - i
    {
      var str8 := bits[i..Min(i + 8, |bits|)];
      var byte := PackByte(str8);
      PackStep(bits, i, packed);
      packed := packed + [byte];
      i := i + 8;
    }
  }

  /** The inner loop: bit `b` of the group is OR-ed into bit `b` of `byte`. That bit is
      still clear when it is set, so the OR is an addition. */
  method PackByte(str8: Code) returns (byte: Byte)
    requires |str8| <= 8
    ensures byte == PackGroup(str8)
  {
    var acc: nat := 0;
    for b := 0 to 8
      invariant acc == ByteOf(str8[..Min(b, |str8|)])
    {
      if b < |str8| {
        assert str8[..b + 1] == str8[..b] + [str8[b]];
        ByteOfSnoc(str8[..b], str8[b]);
        acc := acc + str8[b] * Pow2(b);
      }
    }
    assert str8[..|str8|] == str8;
    Pow2Mono(|str8|, 8);
    byte := acc;
  }

  /** Packing from `i` emits the group at `i` and then packs from `i + 8`, so emitting
      that group keeps the loop invariant of PackBits. */
  lemma PackStep(bits: Code, i: nat, packed: seq<Byte>)
    requires i < |bits|
    requires packed + Pack(From(bits, i)) == Pack(bits)
    ensures Pack(From(bits, i)) == [PackGroup(bits[i..Min(i + 8, |bits|)])] + Pack(From(bits, i + 8))
    ensures (packed + [PackGroup(bits[i..Min(i + 8, |bits|)])]) + Pack(From(bits, i + 8)) == Pack(bits)
  {
    PackFrom(bits, i);
  }

  /** Packing from `i` emits the group at `i` and then packs from `i + 8`. */
  lemma PackFrom(bits: Code, i: nat)
    requires i < |bits|
    ensures Pack(From(bits, i)) == [PackGroup(bits[i..Min(i + 8, |bits|)])] + Pack(From(bits, i + 8))
  {
    var rest := bits[i..];
    assert rest[..Min(8, |rest|)] == bits[i..Min(i + 8, |bits|)];
    assert rest[Min(8, |rest|)..] == From(bits, i + 8);
  }

  /** Unpacking distributes over concatenation of byte strings. */
  lemma {:induction false} UnpackAppend(a: seq<Byte>, b: seq<Byte>)
    ensures Unpack(a + b) == Unpack(a) + Unpack(b)
  {
    if a == [] {
      assert a + b == b;
    } else {
      assert (a + b)[1..] == a[1..] + b;
      UnpackAppend(a[1..], b);
    }
  }

  /** Bit `i` of the unpacked stream is bit `i % 8` of byte `i / 8`. */
  lemma {:induction false} UnpackIndex(packed: seq<Byte>, i: nat)
    requires i < 8 * |packed|
    ensures |Unpack(packed)| == 8 * |packed|
    ensures Unpack(packed)[i] == BitAt(packed[i / 8], i % 8)
  {
    if i >= 8 {
      UnpackIndex(packed[1..], i - 8);
    }
  }

  /** Unpacking the packed bits gives back the bits, followed by the zero padding of the
      last byte. */
  lemma {:induction false} UnpackPack(bits: Code)
    ensures 8 * |Pack(bits)| >= |bits|
    ensures Unpack(Pack(bits)) == bits + Zeros(8 * |Pack(bits)| - |bits|)
    decreases |bits|
  {
    if bits != [] {
      var n := Min(8, |bits|);
      UnpackGroup(bits[..n]);
      UnpackPack(bits[n..]);
      if |bits| <= 8 {
        assert bits[n..] == [];
        assert bits[..n] == bits;
      } else {
        assert bits == bits[..8] + bits[8..];
        assert Zeros(8 - 8) == [];
      }
    }
  }

  /** Bit `i` of the stream lands at bit `i % 8` of byte `i / 8`; the bits of the last
      byte above the stream are 0. */
  lemma PackBitPosition(bits: Code, i: nat)
    requires i < 8 * |Pack(bits)|
    ensures BitAt(Pack(bits)[i / 8], i % 8) == if i < |bits| then bits[i] else 0
  {
    UnpackPack(bits);
    UnpackIndex(Pack(bits), i);
  }
}
