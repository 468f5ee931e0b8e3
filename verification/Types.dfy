/** Identifiers and data that several components share. */
module Types {
  type ChunkID = string

  type NodeID = string

  type Byte = x: int | 0 <= x < 256

  type Bytes = seq<Byte>
}
