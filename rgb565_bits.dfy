/** Bit-level view of the 16-bit samples an RGB565 camera frame is made of:
    the big-endian assembly of two buffer bytes into a `u16`, and the
    standard RGB565 field layout (red in bits 15-11, green in bits 10-5,
    blue in bits 4-0) that the colour unpacker reads. Bytes and words are
    integers in their unsigned ranges, so a bit field is a quotient and a
    remainder by a power of two. */
module Rgb565Bits {

  /** `u8` */
  type byte = n: int | 0 <= n < 0x100
  /** `u16` */
  type word = n: int | 0 <= n < 0x1_0000

  /** `u16::from_be_bytes([hi, lo])`: the first byte is the most significant.
      Splitting the word again gives the bytes back, so the assembly is
      injective: no two byte pairs give the same sample. */
  function FromBeBytes(hi: byte, lo: byte): (v: word)
    ensures HighByte(v) == hi && LowByte(v) == lo
  {
    hi * 0x100 + lo
  }

  /** The byte a big-endian writer stores first (`to_be_bytes()[0]`). */
  function HighByte(v: word): byte
  {
    v / 0x100
  }

  /** The byte a big-endian writer stores second (`to_be_bytes()[1]`). */
  function LowByte(v: word): byte
  {
    v % 0x100
  }

  /** Every 16-bit value is the big-endian assembly of exactly its two bytes. */
  lemma FromBeBytesCovers(v: word)
    ensures FromBeBytes(HighByte(v), LowByte(v)) == v
  {
  }

  /** The 5-bit red field, bits 15-11. */
  function Red5(v: word): (r: nat)
    ensures r < 32
  {
    v / 2048
  }

  /** The 6-bit green field, bits 10-5. */
  function Green6(v: word): (g: nat)
    ensures g < 64
  {
    (v / 32) % 64
  }

  /** The 5-bit blue field, bits 4-0. */
  function Blue5(v: word): (b: nat)
    ensures b < 32
  {
    v % 32
  }

  /** The inverse of the field split: places in-range fields at their bits. */
  function Pack565(r: nat, g: nat, b: nat): (v: word)
    requires r < 32 && g < 64 && b < 32
  {
    r * 2048 + g * 32 + b
  }

  /** The three fields partition the word: packing them rebuilds it. */
  lemma FieldsRebuildWord(v: word)
    ensures Pack565(Red5(v), Green6(v), Blue5(v)) == v
  {
  }

  /** Splitting a packed word returns the fields it was packed from. */
  lemma PackedFieldsSplit(r: nat, g: nat, b: nat)
    requires r < 32 && g < 64 && b < 32
    ensures Red5(Pack565(r, g, b)) == r
    ensures Green6(Pack565(r, g, b)) == g
    ensures Blue5(Pack565(r, g, b)) == b
  {
  }

  /** Where each field sits in the two buffer bytes of a big-endian sample:
      red is the top five bits of the first byte, blue the bottom five bits
      of the second, and green is the low three bits of the first byte
      followed by the top three bits of the second. */
  lemma FieldsInBytes(hi: byte, lo: byte)
    ensures Red5(FromBeBytes(hi, lo)) == hi / 8
    ensures Green6(FromBeBytes(hi, lo)) == (hi % 8) * 8 + lo / 32
    ensures Blue5(FromBeBytes(hi, lo)) == lo % 32
  {
    var v := FromBeBytes(hi, lo);
    assert v == hi * 256 + lo;
    FieldsOfAssembly(hi, lo);
    assert Red5(v) == v / 2048 && Green6(v) == (v / 32) % 64 && Blue5(v) == v % 32;
  }

  /** The arithmetic behind `FieldsInBytes`, on the assembled integer. */
  lemma FieldsOfAssembly(hi: byte, lo: byte)
    ensures (hi * 256 + lo) / 2048 == hi / 8
    ensures ((hi * 256 + lo) / 32) % 64 == (hi % 8) * 8 + lo / 32
    ensures (hi * 256 + lo) % 32 == lo % 32
  {
    var v: int := hi * 256 + lo;
    assert v == (hi / 8) * 2048 + ((hi % 8) * 256 + lo);
    assert v == (hi * 8 + lo / 32) * 32 + lo % 32;
    assert hi * 8 + lo / 32 == (hi / 8) * 64 + ((hi % 8) * 8 + lo / 32);
  }
}
