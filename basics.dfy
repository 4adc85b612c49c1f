/** Shared value types: optional values, results, bytes and the exceptions the
    Python code can raise. */
module Basics {

  datatype Option<+T> = None | Some(value: T)

  /** The outcome of a Python call: a value, or the exception it raised. */
  datatype Result<+T> = Ok(value: T) | Err(error: Error)

  /** The exceptions the modelled code raises or lets escape. */
  datatype Error =
    | ConfigError(path: seq<string>, reason: string)  // schema violation in the configuration
    | AttributeError(name: string)                    // reading an attribute that was never set, or `.get` on a non-dict
    | AssertionError                                  // a failed `assert`
    | KeyError(key: string)                           // `payload[key]` on a missing key
    | TypeError                                       // `None + str`
    | UnicodeDecodeError                              // `bytes.decode("utf8")` on ill-formed input
    | RuntimeError(message: string)                   // explicitly raised fatal condition

  type Byte = b: int | 0 <= b < 256
}
