/** Bytes, bits and bit strings shared by every stage of the Huffman compressor. */
module Alphabet {

  /** One input or output byte (the source's `char` / `unsigned char`), as its value 0..255;
      the value 0 is the NUL character. */
  type Byte = x: int | 0 <= x < 256

  /** One binary digit. The source spells bits as the characters '0' and '1' of a string. */
  type Bit = b: nat | b < 2

  /** A bit string: a Huffman code, a decoder's candidate, or a whole encoded stream. */
  type Code = seq<Bit>

  /** `a` is a (not necessarily proper) prefix of `b`. */
  predicate IsPrefix(a: Code, b: Code) {
    |a| <= |b| && b[..|a|] == a
  }

  /** `n` zero bits: the padding at the end of the last packed byte. */
  function Zeros(n: nat): Code {
    seq(n, _ => 0)
  }

  /** The outcome of an operation that can fail. */
  datatype Result<T, E> = Ok(value: T) | Err(error: E)
}
