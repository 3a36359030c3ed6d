/** Failure-carrying results: the model's stand-in for the exceptions the
    library throws and for C#'s nullable references. */
module Wrappers {

  /** A value that may be absent; `None` plays the role of a null reference. */
  datatype Option<+T> = None | Some(value: T)

  /** Either the converted value or the error the library would throw. */
  datatype Result<+T, +E> = Ok(value: T) | Err(error: E)

  /** The exceptions raised by the modelled members. */
  datatype Error =
    | ArgumentException(message: string, paramName: string)
    | IndexOutOfRangeException

  /** The shared message template "{0} is not valid." filled with the input. */
  function NotValidMessage(value: string): (m: string)
    ensures |m| == |value| + 14
    ensures m[..|value|] == value && m[|value|..] == " is not valid."
  {
    value + " is not valid."
  }

  /** The `ArgumentException` every converter throws, naming parameter `value`. */
  function NotValid(value: string): (e: Error)
    ensures e.ArgumentException? && e.paramName == "value"
    ensures e.message == NotValidMessage(value)
  {
    ArgumentException(NotValidMessage(value), "value")
  }
}
