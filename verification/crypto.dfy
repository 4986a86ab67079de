/** The part of the cipher suite the coordinator sees: the IV length and the IV type.
    The cipher algorithm itself is not part of this model; a cipher is identified by
    the IV it was created with. */
module Crypto {
  import opened Buffers

  /** A length that is at least one byte. */
  type PosNat = n: nat | 0 < n witness 1

  /** CRYPTO_IV_LEN of the cipher suite. Its value belongs to the cipher suite and is left
      open here, so every property is proved for any positive IV length. A zero length is
      excluded: `slice(-0)` takes the whole buffer rather than none of it. */
  const IV_LEN: PosNat

  /** A value of the shape Crypto.generateIV() produces. */
  type Iv = b: Buffer | |b| == IV_LEN witness seq(IV_LEN, _ => 0 as byte)
}
