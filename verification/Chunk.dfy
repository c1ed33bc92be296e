/** The extent of a version 1 chunk. */
module Chunk {
  const EDGE := 16
  const CHUNK_CELLS := 4096
}
