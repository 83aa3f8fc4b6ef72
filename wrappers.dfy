/**
 * Option and Result, and the error conditions the Python code raises
 * (failed `assert`s and built-in exceptions) on the paths the model covers.
 */
module Wrappers {

  datatype Option<+T> = None | Some(value: T)

  /** Why a computation raised instead of returning. */
  datatype Error =
    | NotPowerOfTwo       // `assert _is_power_of_two(count)` in the FFT
    | OverlapTooLarge     // `assert overlap < count` in the STFT
    | InvalidFirWindow    // the FIR window asserts an odd length and a cutoff in ]0,1[
    | DivisionByZero      // a Python ZeroDivisionError
    | ZeroSliceStep       // `signal[::0]` raises ValueError
    | EmptyFilterSize     // scipy's generic_filter rejects a footprint without elements
    | MalformedDescriptor // `int(...)` or indexing fails while parsing a descriptor

  datatype Result<+T> = Ok(value: T) | Err(error: Error)
}
