/** The compressor end to end: huffmanEncode as written and corrected, and what the
    decoder makes of their output. */
module Compressor {
  import opened Alphabet
  import opened Frequency
  import opened HuffmanTree
  import opened Codes
  import opened Packing
  import opened Decoding

  /** huffmanEncode as written: count the bytes, build the tree, assign codes with the
      byte-0 test, encode and pack. `size` is the input length handed on to the decoder.
      The input must not be empty: the source calls `top()` on an empty queue otherwise. */
  method HuffmanEncode(data: seq<Byte>) returns (packed: seq<Byte>, codes: CodeTable, size: nat, ghost root: Tree)
    requires |data| > 0
    ensures size == |data|
    ensures BuiltFrom(root, FreqOf(data))
    ensures codes == CodesAsWritten(root, [])
    ensures packed == Pack(Encoded(data, codes))
    ensures |packed| == (|Encoded(data, codes)| + 7) / 8
  {
    var freq := CountFrequencies(data);
    size := |data|;
    assert data[0] in freq;
    var tree := BuildTree(freq);
    root := tree;
    codes := CodesAsWritten(tree, []);
    var bits := EncodeBits(data, codes);
    packed := PackBits(bits);
  }

  /** The corrected huffmanEncode: codes tell leaves by their shape and a lone leaf gets a
      one-bit code; an empty input compresses to nothing. The table has a non-empty,
      prefix-free code for exactly the bytes of the input. */
  method Compress(data: seq<Byte>) returns (packed: seq<Byte>, codes: CodeTable, origLength: nat, ghost root: Tree)
    ensures origLength == |data|
    ensures forall b :: b in codes <==> b in data
    ensures PrefixFree(codes) && NonEmptyCodes(codes)
    ensures packed == Pack(Encoded(data, codes))
    ensures data != [] ==> BuiltFrom(root, FreqOf(data)) && codes == AssignCodes(root)
  {
    origLength := |data|;
    root := Leaf(0, 0);
    if data == [] {
      packed, codes := [], map[];
      return;
    }
    var freq := CountFrequencies(data);
    assert data[0] in freq;
    var tree := BuildTree(freq);
    root := tree;
    codes := AssignCodes(tree);
    AssignCodesValid(tree);
    BuiltFromSymbols(tree, freq);
    var bits := EncodeBits(data, codes);
    packed := PackBits(bits);
  }

  /** Decoding the corrected encoding of any input, with any prefix-free table of
      non-empty codes covering its bytes, gives the input back. */
  lemma CorrectedRoundTrip(data: seq<Byte>, codes: CodeTable, inv: InverseTable)
    requires PrefixFree(codes) && NonEmptyCodes(codes) && InverseOf(inv, codes)
    requires forall x | x in data :: x in codes
    ensures DecodeResult(Pack(Encoded(data, codes)), inv, |data|) == Ok(data)
  {
    if data != [] {
      var dec := Decoder(Explicit, inv, |data|);
      var bits := Unpack(Pack(Encoded(data, codes)));
      DecodeRoundTrip(dec, codes, data);
      RunCount(dec, Start, bits);
    }
  }

  /** Compressing and then decompressing any input gives it back. */
  method RoundTrip(data: seq<Byte>) returns (r: Result<seq<Byte>, DecodeError>)
    ensures r == Ok(data)
  {
    var packed, codes, origLength, root := Compress(data);
    var inv;
    r, inv := Decompress(packed, codes, origLength);
    CorrectedRoundTrip(data, codes, inv);
  }

  /** The as-written compressor round-trips an input with at least two different bytes
      and no byte 0. */
  lemma LegacyRoundTrip(data: seq<Byte>, root: Tree, inv: InverseTable, a: Byte, b: Byte)
    requires BuiltFrom(root, FreqOf(data))
    requires a in data && b in data && a != b
    requires 0 !in data
    requires InverseOf(inv, CodesAsWritten(root, []))
    ensures var packed := Pack(Encoded(data, CodesAsWritten(root, [])));
            Decoder(Truthy, inv, |data|).Run(Start, Unpack(packed)).out == data
  {
    var freq := FreqOf(data);
    TwoSymbolsMakeNode(root, freq, a, b);
    BuiltFromSymbols(root, freq);
    AsWrittenAgrees(root);
    AssignCodesValid(root);
    DecodeRoundTrip(Decoder(Truthy, inv, |data|), CodesAsWritten(root, []), data);
  }

  /** Byte 0 never comes out of the as-written pipeline: it gets no code, so no code
      decodes to it, whatever the stream and whichever lookup. An input holding byte 0
      therefore does not come back. */
  lemma LegacyNullByteLost(data: seq<Byte>, root: Tree, inv: InverseTable, packed: seq<Byte>, lookup: Lookup)
    requires InverseOf(inv, CodesAsWritten(root, []))
    ensures var out := Decoder(lookup, inv, |data|).Run(Start, Unpack(packed)).out;
            0 !in out && (0 in data ==> out != data)
  {
    var codes := CodesAsWritten(root, []);
    AsWrittenDropsZero(root, []);
    assert 0 !in codes;
    var dec := Decoder(lookup, inv, |data|);
    RunEmits(dec, Start, Unpack(packed));
    assert forall c | c in inv :: inv[c] != 0;
    assert 0 !in inv.Values;
  }

  /** An input made of one repeated byte is encoded with the empty code by the as-written
      compressor (or with no code at all when the byte is 0): nothing is packed, and the
      decoder reads nothing and emits nothing. */
  lemma LegacyLoneSymbolLost(data: seq<Byte>, root: Tree, inv: InverseTable, s: Byte, lookup: Lookup)
    requires |data| > 0 && forall i | 0 <= i < |data| :: data[i] == s
    requires BuiltFrom(root, FreqOf(data))
    ensures CodesAsWritten(root, []) == if s == 0 then map[] else map[s := []]
    ensures Encoded(data, CodesAsWritten(root, [])) == []
    ensures Pack(Encoded(data, CodesAsWritten(root, []))) == []
    ensures Decoder(lookup, inv, |data|).Run(Start, Unpack(Pack(Encoded(data, CodesAsWritten(root, []))))).out == []
  {
    var freq := FreqOf(data);
    forall x
      ensures x in freq <==> x == s
    {
      if x == s {
        assert data[0] in data;
      }
    }
    assert freq.Keys == {s};
    OneSymbolMakesLeaf(root, freq, s);
    var codes := CodesAsWritten(root, []);
    EncodedWithoutCodes(data, codes);
  }

  /** An empty input leaves the queue of buildHuffmanTree empty: every tree has a leaf,
      and the empty input calls for none. `top()` then has no tree to return, which is
      why HuffmanEncode requires a non-empty input and Compress handles it apart. */
  lemma LegacyEmptyQueue(heap: seq<Tree>)
    requires HeapLeaves(heap) == Pairs(FreqOf([]))
    ensures heap == []
  {
    var freq: FreqTable := FreqOf([]);
    assert freq == map[];
    EmptyTable(freq);
    HeapHasLeaves(heap);
  }

  /** A stream too short for `origLength` bytes: the as-written decoder hands back fewer
      bytes without a word, the corrected one reports the truncation. */
  lemma TruncationReported(packed: seq<Byte>, codes: CodeTable, inv: InverseTable, origLength: nat)
    requires 8 * |packed| < origLength
    ensures |Decoder(Truthy, inv, origLength).Run(Start, Unpack(packed)).out| < origLength
    ensures DecodeResult(packed, inv, origLength) == Err(TruncatedStream)
  {
    TruncatedStreamIsShort(packed, inv, origLength, Truthy);
    DecodeResultLength(packed, inv, origLength);
  }
}
