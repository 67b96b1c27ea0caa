/** The exceptions the simulator can raise, as values. */
module Results {

  /** The three ways the core of the simulator fails. */
  datatype Error =
    | InvalidHexLiteral        // int(address, 16) raises ValueError
    | NegativeShiftCount       // 1 << tag_bits with tag_bits < 0 raises ValueError
    | InvalidReplacementPolicy // replace_entry meets a policy it does not know

  /** A computation that either returns a value or raises one of the errors above. */
  datatype Result<+T> = Ok(value: T) | Err(error: Error)
}
