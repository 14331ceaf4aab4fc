/** Shared vocabulary of the patch engine: machine integers, optional values,
    results, and the fatal error kinds an install can end in. */
module Base {

  /** One byte of an executable image. */
  type Byte = b: int | 0 <= b < 256

  /** An injection address as the catalog stores it: an unsigned 32-bit value. */
  type U32 = x: int | 0 <= x < 0x1_0000_0000

  datatype Option<T> = None | Some(value: T)

  datatype Result<T, E> = Success(value: T) | Failure(error: E)

  /** Every way the engine can abort. The original aborts the whole process
      (an assertion, an `expect`, a slice index out of range or an integer
      underflow); the model returns the kind of abort instead. */
  datatype Error =
    | OddLength               // hex payload of odd length
    | NonHexDigit             // a payload character outside 0-9, a-f, A-F
    | IllegalToggle(name: string) // `enable` called on a non-optional feature
    | Oversized               // source image longer than the fixed image size
    | OutOfBounds             // patch reaches past the end of the image
}
