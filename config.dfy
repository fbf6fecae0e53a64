/** Geometry of the simulated physical memory: 64 frames of 256 bytes. */
module Config {

  /** Total bytes of simulated RAM. */
  const MEM_SIZE: nat := 16384
  /**
   * Bytes per frame (and per virtual page). Where an address is computed
   * the model writes the product with the literal 256, which keeps the
   * arithmetic linear for the verifier.
   */
  const PAGE_SIZE: nat := 256
  /** Number of frames; also the number of free-map bytes and of page-table entries walked. */
  const PAGE_COUNT: nat := 64
  /** A page number is shifted left this far to form an address. */
  const PAGE_SHIFT: nat := 8
  /** Byte offset inside frame 0 where the page-table directory starts. */
  const PTP_OFFSET: nat := 64
  /** Directory slots: the rest of frame 0 after the free map. */
  const DIRECTORY_CAPACITY: nat := PAGE_SIZE - PTP_OFFSET

  /** One cell of `unsigned char mem[]`. */
  type Byte = x: int | 0 <= x < 256
}
