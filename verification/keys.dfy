/** Byte strings, account addresses and table indices. */
module Keys {

  /** One byte of account data. */
  type Byte = bv8

  /** Raw account data: a variable-length byte string. */
  type Bytes = seq<Byte>

  /** Length in bytes of an account address. */
  const PubkeyLen: nat := 32

  /** An account address: exactly 32 bytes, compared byte for byte. */
  type Pubkey = s: Bytes | |s| == PubkeyLen witness seq(32, _ => 0 as bv8)

  /** An index into a lookup table as it appears in a compiled message: one unsigned byte. */
  type Index = i: nat | i < 256
}
