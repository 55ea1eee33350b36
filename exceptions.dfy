/** The failure raised when a mark sequence does not satisfy the Golomb
    property, and the result type that carries it instead of an exception. */
module Exceptions {

  /** `NotGolombRuler`: carries the offending sequence, as the message built
      by the constructor does. */
  datatype NotGolombRuler = NotGolombRuler(sequence: seq<int>)

  datatype Result<+T, +E> = Ok(value: T) | Err(error: E)
}
