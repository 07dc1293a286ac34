/** Outcomes of the operations that the Java code ends with an exception, and the
    optional value that stands for a possibly-null Java reference. */
module Results {

  /** `None` stands for a Java `null`. */
  datatype Option<+T> = None | Some(value: T)

  /** The exceptions the modelled code throws on bad arguments. */
  datatype Error =
    | BitPosOutOfRange    // IllegalArgumentException thrown by FactorBitArray.get
    | BitValueNotBinary   // IllegalArgumentException thrown by FactorBitArray.set
    | MissingProduct      // IllegalArgumentException thrown by the InverseMultiply constructor
    | NegativeArraySize   // NegativeArraySizeException from allocating an array of negative length

  datatype Result<+T> = Ok(value: T) | Err(error: Error)
}
