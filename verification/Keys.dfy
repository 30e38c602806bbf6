/** Byte strings and the 256-bit ids and keys made of them. */
module Keys {
  const ID_BYTES: nat := 32
  const ID_BITS: nat := 256

  type Byte = bv8
  type Bytes = seq<Byte>
  type NodeId = s: Bytes | |s| == ID_BYTES witness seq(ID_BYTES, _ => 0)
  type Key = NodeId

  /** A socket address. */
  type Address = string
}
