/** Machine words. */
module Words {

  /** The values of 32 and of 64 bits. */
  const WORD: nat := 0x1_0000_0000
  const LONG: nat := 0x1_0000_0000_0000_0000

  type word = v: nat | v < 0x1_0000_0000

  type long = v: nat | v < 0x1_0000_0000_0000_0000
}
