/**
 * The shifts and masks the decoders apply to single bytes, stated once
 * on 8-bit vectors with the C operator and proved equal to the
 * division/remainder form the rest of the model uses.
 */
module BitOps {
  import opened Octets

  /** The byte an 8-bit vector holds. */
  function Value(b: bv8): (v: byte)
    ensures v as int == b as int
  {
    b as int as byte
  }

  /** b >> 5, used for the 802.1Q PCP and the IPv4 fragment flags. */
  lemma Shr5(b: bv8)
    ensures (b >> 5) as int == Value(b) as int / 32
  {
  }

  /** b >> 4, used for the IPv4 version and the TCP data offset. */
  lemma Shr4(b: bv8)
    ensures (b >> 4) as int == Value(b) as int / 16
  {
  }

  /** (b >> 4) & 1, used for the 802.1Q DEI. */
  lemma Shr4And1(b: bv8)
    ensures ((b >> 4) & 1) as int == Value(b) as int / 16 % 2
  {
  }

  /** b & 0x0F, used for the IPv4 IHL. */
  lemma And0F(b: bv8)
    ensures (b & 0x0F) as int == Value(b) as int % 16
  {
  }

  /** b & 0x1F, used for the IPv4 fragment position and option numbers. */
  lemma And1F(b: bv8)
    ensures (b & 0x1F) as int == Value(b) as int % 32
  {
  }

  /** (b & 0x60) >> 5, used for the IPv4 option class. */
  lemma And60Shr5(b: bv8)
    ensures ((b & 0x60) >> 5) as int == Value(b) as int / 32 % 4
  {
  }

  /**
   * char2word on 16-bit vectors: hi << 8 | lo. Its value is
   * Char2Word(hi, lo) by definition of the shift.
   */
  function Word(hi: bv8, lo: bv8): bv16 {
    ((hi as bv16) << 8) | (lo as bv16)
  }

  /** The 802.1Q VID mask: char2word(hi, lo) & 0x0FFF keeps the low nibble of hi and all of lo. */
  lemma Mask0FFF(hi: bv8, lo: bv8)
    ensures Word(hi, lo) & 0x0FFF == Word(hi & 0x0F, lo)
  {
  }

  /** The TCP reserved field: (char2word(hi, lo) & 0x0FC0) >> 6 is the low nibble of hi, then the top two bits of lo. */
  lemma Mask0FC0(hi: bv8, lo: bv8)
    ensures (Word(hi, lo) & 0x0FC0) >> 6 == (((hi & 0x0F) as bv16) << 2) | ((lo >> 6) as bv16)
  {
  }

  /** The value of the reserved field assembled above. */
  lemma ReservedValue(hi: bv8, lo: bv8)
    ensures ((((hi & 0x0F) as bv16) << 2) | ((lo >> 6) as bv16)) as int
            == Value(hi) as int % 16 * 4 + Value(lo) as int / 64
  {
    And0F(hi);
    Shr6(lo);
  }

  /** b >> 6. */
  lemma Shr6(b: bv8)
    ensures (b >> 6) as int == Value(b) as int / 64
  {
  }
}
