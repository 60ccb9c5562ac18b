/**
 What several parts of the model share.
 */
module Common {

  datatype Option<+T> = None | Some(value: T)

  /** The members one after the other. */
  function Flatten<T>(parts: seq<seq<T>>): seq<T> {
    if parts == [] then [] else Flatten(parts[..|parts| - 1]) + parts[|parts| - 1]
  }

  /** config::kNumLevels */
  const NUM_LEVELS := 7

  /** kMaxSequenceNumber: 56 bits, so that a kind fits below it in 64 bits. */
  const MAX_SEQUENCE: nat := 0xFF_FFFF_FFFF_FFFF
}
