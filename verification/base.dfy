/** Shared vocabulary of the messenger domain model: identifiers, instants
    and optional values. */
module Base {

  /** An identifier: an opaque 128-bit value (a UUID). Identifiers are
      supplied by the caller; their random generation is not modelled. */
  newtype Uuid = x: int | 0 <= x < 0x1_0000_0000_0000_0000_0000_0000_0000_0000

  /** A UTC instant, counted in ticks of the caller's clock. Every operation
      that reads the clock takes the current instant as a parameter. */
  type Instant = int

  /** A value that may be absent (Python's `Optional`). */
  datatype Option<+T> = None | Some(value: T)
}
