/** What the models have in common: optional values, machine widths, and checksum bytes. */
module Machine {

  datatype Option<+T> = None | Some(value: T)

  const TWO_32: nat := 0x1_0000_0000
  const TWO_64: nat := 0x1_0000_0000_0000_0000

  newtype byte = x: int | 0 <= x < 256

  /** The byte that brings a sum to 0 modulo 256: a negated sum stored in a byte. */
  function Complement(sum: nat): byte { ((256 - sum % 256) % 256) as byte }

  lemma ComplementCancels(sum: nat)
    ensures (sum + Complement(sum) as nat) % 256 == 0
  {
  }
}
