/** The ways the backdrop generator can fail. The program never catches an
    exception: each of these ends the run before an image is written. */
module Errors {

  datatype Fault =
    | ZeroDivision     // Python's ZeroDivisionError
    | IndexOutOfRange  // the image library's IndexError from getpixel
    // a bisection that has not met its tolerance within `fuel` passes: every
    // bisection that would hang ends this way, but so does one that only
    // needs more passes, and no contract says when it happens
    | Unconverged

  datatype Result<T> = Ok(value: T) | Err(fault: Fault)
}
