/** Results of operations that can throw in the original program. */
module Outcomes {

  /** The .NET exceptions the modelled code can raise. */
  datatype Error =
    | ArgumentOutOfRange   // negative index or length passed to a library call
    | Argument             // index and length do not describe a range of the array
    | IndexOutOfRange      // array indexing past the end
    | KeyNotFound          // dictionary indexer on a missing key
    | DuplicateKey         // Dictionary.Add on a key that is already present
    | DuplicateProvince    // the generator's own "duplicate province" exception
    | InvalidOperation     // First/Single on a sequence without a suitable element
    | DivideByZero         // decimal division by zero
    | DoesNotCompile       // generated code that declares the same enum member twice

  datatype Result<+T> = Success(value: T) | Failure(error: Error)

  datatype Option<+T> = None | Some(value: T)
}
