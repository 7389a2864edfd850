/** Decoding: the inverted code table, and the bit-by-bit decoder that grows a candidate
    code until it matches, emits the matched byte and starts over. */
module Decoding {
  import opened Alphabet
  import opened Codes
  import opened Packing

  /** Code -> byte (the source's unordered_map<string, char> uMap). */
  type InverseTable = map<Code, Byte>

  /** How the decoder asks whether its candidate is a code. */
  datatype Lookup =
    | Truthy    // `if (uMap[concat])`: a code that maps to byte 0 reads as a miss
    | Explicit  // a membership test: every code in the table is recognised

  /** The decoder's variables: the bytes emitted so far, the candidate `concat`, and
      whether `origLength` bytes have been emitted (the early return). */
  datatype DecodeState = DecodeState(out: seq<Byte>, cand: Code, done: bool)

  const Start := DecodeState([], [], false)

  /** The decoding loop of huffmanDecode, one bit at a time. */
  datatype Decoder = Decoder(lookup: Lookup, inv: InverseTable, origLength: nat) {

    predicate Recognises(cand: Code) {
      cand in inv && (lookup == Truthy ==> inv[cand] != 0)
    }

    /** One bit: append it to the candidate; on a match emit the byte, clear the
        candidate and stop once `origLength` bytes are out. */
    function Step(st: DecodeState, bit: Bit): (next: DecodeState)
      ensures st.done ==> next == st
      ensures |st.out| <= |next.out| <= |st.out| + 1 && next.out[..|st.out|] == st.out
      ensures |next.out| > |st.out| ==>
                && Recognises(st.cand + [bit])
                && next.out[|st.out|] == inv[st.cand + [bit]]
                && next.cand == []
    {
      if st.done then st
      else
        var cand := st.cand + [bit];
        if Recognises(cand) then
          var out := st.out + [inv[cand]];
          DecodeState(out, [], |out| == origLength)
        else
          DecodeState(st.out, cand, false)
    }

    /** The decoder fed a whole bit string. */
    function Run(st: DecodeState, bits: Code): (last: DecodeState)
      ensures |st.out| <= |last.out| <= |st.out| + |bits| && last.out[..|st.out|] == st.out
      decreases |bits|
    {
      if bits == [] then st
      else
        var next := Step(st, bits[0]);
        var last := Run(next, bits[1..]);
        assert last.out[..|next.out|][..|st.out|] == last.out[..|st.out|];
        last
    }
  }

  // ----- general facts about the decoder -----

  /** Feeding two bit strings one after the other is feeding their concatenation. */
  lemma {:induction false} RunAppend(dec: Decoder, st: DecodeState, a: Code, b: Code)
    ensures dec.Run(st, a + b) == dec.Run(dec.Run(st, a), b)
    decreases |a|
  {
    if a == [] {
      assert a + b == b;
    } else {
      assert (a + b)[1..] == a[1..] + b;
      RunAppend(dec, dec.Step(st, a[0]), a[1..], b);
    }
  }

  lemma RunSnoc(dec: Decoder, st: DecodeState, a: Code, bit: Bit)
    ensures dec.Run(st, a + [bit]) == dec.Step(dec.Run(st, a), bit)
  {
    RunAppend(dec, st, a, [bit]);
    assert [bit][1..] == [];
  }

  /** Feeding one more bit of `more` after `prior` is one more step. */
  lemma RunNextBit(dec: Decoder, prior: Code, more: Code, j: nat)
    requires j < |more|
    ensures dec.Run(Start, prior + more[..j + 1]) == dec.Step(dec.Run(Start, prior + more[..j]), more[j])
  {
    assert prior + more[..j + 1] == (prior + more[..j]) + [more[j]];
    RunSnoc(dec, Start, prior + more[..j], more[j]);
  }

  /** Once `origLength` bytes are out, no further bit changes anything. */
  lemma {:induction false} RunAfterDone(dec: Decoder, st: DecodeState, bits: Code)
    requires st.done
    ensures dec.Run(st, bits) == st
    decreases |bits|
  {
    if bits != [] {
      RunAfterDone(dec, st, bits[1..]);
    }
  }

  /** The decoder only appends to its output, at most one byte per bit, and every byte it
      appends is a value of the inverse table; through `Truthy` it is never byte 0. */
  lemma {:induction false} RunEmits(dec: Decoder, st: DecodeState, bits: Code)
    ensures var out := dec.Run(st, bits).out;
            && |st.out| <= |out| <= |st.out| + |bits|
            && out[..|st.out|] == st.out
            && forall i | |st.out| <= i < |out| ::
                 out[i] in dec.inv.Values && (dec.lookup == Truthy ==> out[i] != 0)
    decreases |bits|
  {
    if bits != [] {
      var next := dec.Step(st, bits[0]);
      RunEmits(dec, next, bits[1..]);
      var out := dec.Run(st, bits).out;
      assert out[..|next.out|][..|st.out|] == out[..|st.out|];
    }
  }

  /** The emitted count and the stop flag agree: for `origLength > 0` the decoder is done
      exactly when `origLength` bytes are out, and never emits more. */
  lemma {:induction false} RunCount(dec: Decoder, st: DecodeState, bits: Code)
    requires dec.origLength > 0
    requires |st.out| <= dec.origLength && (st.done <==> |st.out| == dec.origLength)
    ensures var r := dec.Run(st, bits);
            |r.out| <= dec.origLength && (r.done <==> |r.out| == dec.origLength)
    decreases |bits|
  {
    if bits != [] {
      RunCount(dec, dec.Step(st, bits[0]), bits[1..]);
    }
  }

  // ----- the inverted table -----

  /** `inv` maps each code of `codes` back to a byte that has that code. */
  ghost predicate InverseOf(inv: InverseTable, codes: CodeTable) {
    && (forall c | c in inv :: inv[c] in codes && codes[inv[c]] == c)
    && (forall s | s in codes :: codes[s] in inv)
  }

  lemma SomeByte(r: set<Byte>)
    requires r != {}
    ensures exists s :: s in r
  {
    if forall s :: s !in r {
      assert false;
    }
  }

  /** The inversion loop of huffmanDecode: `uMap[code] = byte` for each table entry. */
  method InvertTable(codes: CodeTable) returns (inv: InverseTable)
    ensures InverseOf(inv, codes)
  {
    inv := map[];
    var rest := codes.Keys;
    while rest != {}
      invariant rest <= codes.Keys
      invariant forall c | c in inv :: inv[c] in codes && codes[inv[c]] == c
      invariant forall s | s in codes && s !in rest :: codes[s] in inv
      decreases |rest|
    {
      SomeByte(rest);
      var s :| s in rest;
      inv := inv[codes[s] := s];
      rest := rest - {s};
    }
  }

  /** With a prefix-free table the codes are distinct, so the inverse gives back the very
      byte that was encoded. */
  lemma InverseRecovers(inv: InverseTable, codes: CodeTable, s: Byte)
    requires InverseOf(inv, codes) && PrefixFree(codes) && s in codes
    ensures codes[s] in inv && inv[codes[s]] == s
  {
    var t := inv[codes[s]];
    if t != s {
      assert IsPrefix(codes[t], codes[s]);
      assert false;
    }
  }

  // ----- decoding what was encoded -----

  /** What decoding with `dec` needs of the code table it inverts: prefix-free non-empty
      codes, `dec.inv` their inverse, and, for the `Truthy` lookup, no code for byte 0. */
  ghost predicate Decodable(dec: Decoder, codes: CodeTable) {
    && PrefixFree(codes)
    && NonEmptyCodes(codes)
    && InverseOf(dec.inv, codes)
    && (dec.lookup == Truthy ==> 0 !in codes)
  }

  /** No proper prefix of a code is recognised. */
  lemma ProperPrefixIgnored(dec: Decoder, codes: CodeTable, s: Byte, p: Code)
    requires Decodable(dec, codes) && s in codes
    requires IsPrefix(p, codes[s]) && |p| < |codes[s]|
    ensures !dec.Recognises(p)
  {
  }

  /** A whole code is recognised and emits its own byte. */
  lemma WholeCodeRecognised(dec: Decoder, codes: CodeTable, s: Byte)
    requires Decodable(dec, codes) && s in codes
    ensures dec.Recognises(codes[s]) && dec.inv[codes[s]] == s
  {
    InverseRecovers(dec.inv, codes, s);
  }

  /** Feeding the rest `q` of the code of `s`, after its beginning `p` is in the candidate,
      emits `s` and leaves an empty candidate. */
  lemma {:induction false} DecodeCodeTail(dec: Decoder, codes: CodeTable, s: Byte,
                                          out: seq<Byte>, p: Code, q: Code, rest: Code)
    requires Decodable(dec, codes) && s in codes
    requires p + q == codes[s] && |q| > 0
    ensures dec.Run(DecodeState(out, p, false), q + rest)
            == dec.Run(DecodeState(out + [s], [], |out| + 1 == dec.origLength), rest)
    decreases |q|
  {
    RunFirst(dec, DecodeState(out, p, false), q, rest);
    CodeSplit(p, q, codes[s], rest);
    if |q| == 1 {
      StepCompletes(dec, codes, s, out, p, q[0]);
    } else {
      StepExtends(dec, codes, s, out, p, q[0]);
      DecodeCodeTail(dec, codes, s, out, p + [q[0]], q[1..], rest);
    }
  }

  /** Moving the first bit of `q` over to `p` keeps `p + q` a split of `code`. */
  lemma CodeSplit(p: Code, q: Code, code: Code, rest: Code)
    requires p + q == code && |q| > 0
    ensures |q| == 1 ==> p + [q[0]] == code && q[1..] + rest == rest
    ensures |q| > 1 ==> IsPrefix(p + [q[0]], code) && |p| + 1 < |code| && (p + [q[0]]) + q[1..] == code
  {
    assert code[..|p| + 1] == p + [q[0]];
  }

  /** The bit that completes the code of `s` emits `s`. */
  lemma StepCompletes(dec: Decoder, codes: CodeTable, s: Byte, out: seq<Byte>, p: Code, bit: Bit)
    requires Decodable(dec, codes) && s in codes && p + [bit] == codes[s]
    ensures dec.Step(DecodeState(out, p, false), bit)
            == DecodeState(out + [s], [], |out| + 1 == dec.origLength)
  {
    WholeCodeRecognised(dec, codes, s);
  }

  /** A bit that leaves the candidate a proper prefix of the code of `s` only extends it. */
  lemma StepExtends(dec: Decoder, codes: CodeTable, s: Byte, out: seq<Byte>, p: Code, bit: Bit)
    requires Decodable(dec, codes) && s in codes
    requires IsPrefix(p + [bit], codes[s]) && |p| + 1 < |codes[s]|
    ensures dec.Step(DecodeState(out, p, false), bit) == DecodeState(out, p + [bit], false)
  {
    ProperPrefixIgnored(dec, codes, s, p + [bit]);
  }

  /** Feeding `q + rest` feeds the first bit of `q`, then the rest of it, then `rest`. */
  lemma RunFirst(dec: Decoder, st: DecodeState, q: Code, rest: Code)
    requires |q| > 0
    ensures dec.Run(st, q + rest) == dec.Run(dec.Step(st, q[0]), q[1..] + rest)
  {
    assert (q + rest)[1..] == q[1..] + rest;
  }

  /** Decoding the encoding of `data` emits `data`, as long as that does not go past
      `origLength`. */
  lemma {:induction false} DecodeEncoded(dec: Decoder, codes: CodeTable, out: seq<Byte>,
                                         data: seq<Byte>, rest: Code)
    requires Decodable(dec, codes)
    requires forall x | x in data :: x in codes
    requires data != [] && |out| + |data| <= dec.origLength
    ensures dec.Run(DecodeState(out, [], false), Encoded(data, codes) + rest)
            == dec.Run(DecodeState(out + data, [], |out| + |data| == dec.origLength), rest)
    decreases |data|
  {
    if |data| == 1 {
      DecodeFirst(dec, codes, out, data, rest);
      assert Encoded(data[1..], codes) + rest == rest;
      assert out + [data[0]] == out + data;
    } else {
      assert forall x | x in data[1..] :: x in data;
      DecodeEncoded(dec, codes, out + [data[0]], data[1..], rest);
      DecodeLater(dec, codes, out, data, rest);
    }
  }

  /** The induction step of DecodeEncoded: after the first byte, the rest decodes. */
  lemma DecodeLater(dec: Decoder, codes: CodeTable, out: seq<Byte>, data: seq<Byte>, rest: Code)
    requires Decodable(dec, codes)
    requires |data| > 1 && data[0] in codes && |out| + |data| <= dec.origLength
    requires dec.Run(DecodeState(out + [data[0]], [], false), Encoded(data[1..], codes) + rest)
             == dec.Run(DecodeState(out + [data[0]] + data[1..], [], |out| + |data| == dec.origLength), rest)
    ensures dec.Run(DecodeState(out, [], false), Encoded(data, codes) + rest)
            == dec.Run(DecodeState(out + data, [], |out| + |data| == dec.origLength), rest)
  {
    DecodeFirst(dec, codes, out, data, rest);
    HeadThenTail(out, data);
  }

  lemma HeadThenTail<T>(a: seq<T>, b: seq<T>)
    requires b != []
    ensures a + [b[0]] + b[1..] == a + b
  {
    assert b == [b[0]] + b[1..];
  }

  /** The first byte of the input decodes first. */
  lemma DecodeFirst(dec: Decoder, codes: CodeTable, out: seq<Byte>, data: seq<Byte>, rest: Code)
    requires Decodable(dec, codes)
    requires data != [] && data[0] in codes
    ensures dec.Run(DecodeState(out, [], false), Encoded(data, codes) + rest)
            == dec.Run(DecodeState(out + [data[0]], [], |out| + 1 == dec.origLength),
                       Encoded(data[1..], codes) + rest)
  {
    EncodedHead(data, codes, rest);
    DecodeCodeTail(dec, codes, data[0], out, [], codes[data[0]], Encoded(data[1..], codes) + rest);
  }

  lemma EncodedHead(data: seq<Byte>, codes: CodeTable, rest: Code)
    requires data != [] && data[0] in codes
    ensures Encoded(data, codes) + rest == codes[data[0]] + (Encoded(data[1..], codes) + rest)
    ensures [] + codes[data[0]] == codes[data[0]]
  {
    assert data == [data[0]] + data[1..];
    EncodedCons(data[0], data[1..], codes);
    Associate(codes[data[0]], Encoded(data[1..], codes), rest);
  }

  lemma Associate<T>(a: seq<T>, b: seq<T>, c: seq<T>)
    ensures (a + b) + c == a + (b + c)
  {
  }

  /** Round trip: decoding, with `origLength` the input length, the unpacked bytes of the
      packed encoding of any input whose bytes all have codes gives the input back. */
  lemma DecodeRoundTrip(dec: Decoder, codes: CodeTable, data: seq<Byte>)
    requires Decodable(dec, codes) && dec.origLength == |data|
    requires forall x | x in data :: x in codes
    ensures dec.Run(Start, Unpack(Pack(Encoded(data, codes)))).out == data
  {
    var bits := Encoded(data, codes);
    UnpackPack(bits);
    var padding := Zeros(8 * |Pack(bits)| - |bits|);
    if data == [] {
      assert bits == [];
      assert Pack(bits) == [];
    } else {
      DecodeEncoded(dec, codes, [], data, padding);
      assert [] + data == data;
      RunAfterDone(dec, DecodeState(data, [], true), padding);
    }
  }

  // ----- the decoding loop itself -----

  lemma UnpackSnoc(packed: seq<Byte>, i: nat)
    requires i < |packed|
    ensures Unpack(packed[..i + 1]) == Unpack(packed[..i]) + UnpackByte(packed[i])
  {
    assert packed[..i + 1] == packed[..i] + [packed[i]];
    UnpackAppend(packed[..i], [packed[i]]);
    assert Unpack([packed[i]]) == UnpackByte(packed[i]) + Unpack([]);
  }

  lemma UnpackSplit(packed: seq<Byte>, i: nat)
    requires i <= |packed|
    ensures Unpack(packed) == Unpack(packed[..i]) + Unpack(packed[i..])
  {
    assert packed == packed[..i] + packed[i..];
    UnpackAppend(packed[..i], packed[i..]);
  }

  /** Once the decoder is done partway through byte `i`, the rest of the stream changes
      nothing: stopping there gives the result of decoding the whole stream. */
  lemma StopEarly(dec: Decoder, packed: seq<Byte>, i: nat, j: nat, st: DecodeState)
    requires i < |packed| && j < 8
    requires dec.Run(Start, Unpack(packed[..i]) + UnpackByte(packed[i])[..j + 1]) == st
    requires st.done
    ensures dec.Run(Start, Unpack(packed)) == st
  {
    var fed := Unpack(packed[..i]) + UnpackByte(packed[i])[..j + 1];
    var unread := UnpackByte(packed[i])[j + 1..] + Unpack(packed[i + 1..]);
    UnpackAround(packed, i, j);
    RunAppend(dec, Start, fed, unread);
    RunAfterDone(dec, st, unread);
  }

  /** The unpacked stream split after bit `j` of byte `i`. */
  lemma UnpackAround(packed: seq<Byte>, i: nat, j: nat)
    requires i < |packed| && j < 8
    ensures Unpack(packed)
         == (Unpack(packed[..i]) + UnpackByte(packed[i])[..j + 1])
          + (UnpackByte(packed[i])[j + 1..] + Unpack(packed[i + 1..]))
  {
    UnpackSnoc(packed, i);
    UnpackSplit(packed, i + 1);
    SplitInside(Unpack(packed), Unpack(packed[..i + 1]), Unpack(packed[..i]), UnpackByte(packed[i]),
                Unpack(packed[i + 1..]), j + 1);
  }

  /** Cutting the middle part of `before + middle + after` at `k`. */
  lemma SplitInside<T>(whole: seq<T>, front: seq<T>, before: seq<T>, middle: seq<T>, after: seq<T>, k: nat)
    requires whole == front + after && front == before + middle
    requires k <= |middle|
    ensures whole == (before + middle[..k]) + (middle[k..] + after)
  {
    assert middle == middle[..k] + middle[k..];
  }

    /** The `reverse` loop: the bitset string of `b`, most significant bit first, read
      back to front gives the eight bits of `b` least significant first, and these pack
      back to `b`. */
  method ReverseBitset(b: Byte) returns (reverse: Code)
    ensures reverse == UnpackByte(b) && ByteOf(reverse) == b
  {
    var bitStr := BitsetString(b);
    reverse := [];
    var k := 7;
    while k >= 0
      invariant -1 <= k <= 7
      invariant reverse == UnpackByte(b)[..7 - k]
    {
      assert UnpackByte(b)[..7 - k + 1] == reverse + [bitStr[k]];
      reverse := reverse + [bitStr[k]];
      k := k - 1;
    }
    assert reverse == UnpackByte(b)[..8];
  }

/** huffmanDecode's loop over the packed bytes: each byte is read as its bitset string,
      reversed into least-significant-first order, and fed to the decoder bit by bit;
      the loop returns as soon as `origLength` bytes have been emitted. */
  method DecodeStream(packed: seq<Byte>, inv: InverseTable, origLength: nat, lookup: Lookup)
    returns (out: seq<Byte>)
    ensures out == Decoder(lookup, inv, origLength).Run(Start, Unpack(packed)).out
  {
    var dec := Decoder(lookup, inv, origLength);
    var charCount := 0;
    var concat: Code := [];
    out := [];
    assert packed[..0] == [];
    for i := 0 to |packed|
      invariant dec.Run(Start, Unpack(packed[..i])) == DecodeState(out, concat, false)
      invariant charCount == |out|
    {
      var reverse := ReverseBitset(packed[i]);
      UnpackSnoc(packed, i);
      ghost var prior := Unpack(packed[..i]);
      assert prior + reverse[..0] == prior;
      for j := 0 to 8
        invariant dec.Run(Start, prior + reverse[..j]) == DecodeState(out, concat, false)
        invariant charCount == |out|
      {
        RunNextBit(dec, prior, reverse, j);
        concat := concat + [reverse[j]];
        if dec.Recognises(concat) {
          out := out + [inv[concat]];
          charCount := charCount + 1;
          concat := [];
          if charCount == origLength {
            StopEarly(dec, packed, i, j, DecodeState(out, [], true));
            return;
          }
        }
      }
      assert reverse[..8] == reverse;
    }
    assert packed[..|packed|] == packed;
  }

  // ----- the decoder as written, and a decoder that reports a truncated stream -----

  /** huffmanDecode as written: the inverted table is consulted through `uMap[concat]`,
      and a stream that runs out before `origLength` bytes ends the loop silently. */
  method HuffmanDecode(packed: seq<Byte>, codes: CodeTable, origLength: nat)
    returns (out: seq<Byte>, inv: InverseTable)
    ensures InverseOf(inv, codes)
    ensures out == Decoder(Truthy, inv, origLength).Run(Start, Unpack(packed)).out
  {
    inv := InvertTable(codes);
    out := DecodeStream(packed, inv, origLength, Truthy);
  }

  datatype DecodeError = TruncatedStream

  /** The corrected decoder's result: codes are looked up by membership, and a stream that
      ends before `origLength` bytes is an error rather than a short output. */
  function DecodeResult(packed: seq<Byte>, inv: InverseTable, origLength: nat)
    : (r: Result<seq<Byte>, DecodeError>)
    ensures r.Ok? ==> |r.value| == origLength
  {
    if origLength == 0 then Ok([])
    else
      var dec := Decoder(Explicit, inv, origLength);
      var st := dec.Run(Start, Unpack(packed));
      RunCount(dec, Start, Unpack(packed));
      if st.done then Ok(st.out) else Err(TruncatedStream)
  }

  /** A successful decode has exactly `origLength` bytes; a stream of fewer than
      `origLength` bits is always reported as truncated. */
  lemma DecodeResultLength(packed: seq<Byte>, inv: InverseTable, origLength: nat)
    ensures DecodeResult(packed, inv, origLength).Ok? ==>
              |DecodeResult(packed, inv, origLength).value| == origLength
    ensures 8 * |packed| < origLength ==> DecodeResult(packed, inv, origLength).Err?
  {
    if origLength > 0 {
      var dec := Decoder(Explicit, inv, origLength);
      RunCount(dec, Start, Unpack(packed));
      RunEmits(dec, Start, Unpack(packed));
    }
  }

  /** The as-written decoder on a stream of fewer than `origLength` bits returns fewer
      than `origLength` bytes, with nothing to tell the caller. */
  lemma TruncatedStreamIsShort(packed: seq<Byte>, inv: InverseTable, origLength: nat, lookup: Lookup)
    requires 8 * |packed| < origLength
    ensures |Decoder(lookup, inv, origLength).Run(Start, Unpack(packed)).out| < origLength
  {
    RunEmits(Decoder(lookup, inv, origLength), Start, Unpack(packed));
  }

  /** The corrected huffmanDecode: invert the table, decode by membership, and report a
      truncated stream. */
  method Decompress(packed: seq<Byte>, codes: CodeTable, origLength: nat)
    returns (r: Result<seq<Byte>, DecodeError>, inv: InverseTable)
    ensures InverseOf(inv, codes)
    ensures r == DecodeResult(packed, inv, origLength)
  {
    inv := InvertTable(codes);
    if origLength == 0 {
      r := Ok([]);
    } else {
      var out := DecodeStream(packed, inv, origLength, Explicit);
      RunCount(Decoder(Explicit, inv, origLength), Start, Unpack(packed));
      if |out| == origLength {
        r := Ok(out);
      } else {
        r := Err(TruncatedStream);
      }
    }
  }
}
