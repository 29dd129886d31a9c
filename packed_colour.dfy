/**
 * The packed colour word the workers send and the image fill unpacks:
 * red in bits 0-7, green in bits 8-15, blue in bits 16-23, and bits 24-31
 * unused.
 */
module PackedColour {
  /** One pixel of an 8-bit RGB image. */
  datatype Rgb = Rgb(r: bv8, g: bv8, b: bv8)

  /** The mask of the three colour bytes. */
  const RGB_MASK: bv32 := 0x00ff_ffff

  /**
   * Splits a packed word into its three bytes by masking and shifting, then
   * truncating to 8 bits. Stated arithmetically: red is the lowest base-256
   * digit, green the next and blue the third.
   */
  function Decode(v: bv32): (c: Rgb)
    ensures c.r as bv32 == v % 0x100
    ensures c.g as bv32 == v / 0x100 % 0x100
    ensures c.b as bv32 == v / 0x1_0000 % 0x100
  {
    Rgb((v & 0x0000_00ff) as bv8,
        ((v & 0x0000_ff00) >> 8) as bv8,
        ((v & 0x00ff_0000) >> 16) as bv8)
  }

  /**
   * The packing that Decode undoes: the three bytes side by side, the top
   * byte clear. Its value is the base-256 number r + 256*g + 65536*b, which
   * stays below 2^24 and so never wraps in 32 bits.
   */
  function Pack(c: Rgb): (v: bv32)
    ensures v & !RGB_MASK == 0 && v < 0x100_0000
    ensures v == c.r as bv32 + 0x100 * c.g as bv32 + 0x1_0000 * c.b as bv32
  {
    c.r as bv32 | (c.g as bv32 << 8) | (c.b as bv32 << 16)
  }

  /** Decoding a packed colour gives back the three bytes. */
  lemma DecodePack(c: Rgb)
    ensures Decode(Pack(c)) == c
  {
  }

  /** Packing a decoded word rebuilds the word with its top byte cleared. */
  lemma PackDecode(v: bv32)
    ensures Pack(Decode(v)) == v & RGB_MASK
  {
  }

  /** Two words decode alike exactly when they agree on bits 0-23. */
  lemma DecodeIgnoresTopByte(v: bv32, w: bv32)
    ensures Decode(v) == Decode(w) <==> v & RGB_MASK == w & RGB_MASK
  {
    if Decode(v) == Decode(w) {
      PackDecode(v);
      PackDecode(w);
    }
  }
}
