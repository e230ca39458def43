/** Shared vocabulary of the model: optional values, results that carry the
    Ruby exception a call would raise, file-system paths and the opaque
    template handle produced by the template engine. */
module Base {

  /** The Ruby `nil`-or-value idiom. */
  datatype Option<+T> = None | Some(value: T)

  /** A value, or the exception the Ruby code would raise instead. */
  datatype Result<+T> = Ok(value: T) | Err(fault: Fault)

  /** The exceptions the dispatcher lets escape to its caller. The template
      engine's compiler and renderer may raise any of them; what they raise
      besides these is an `EngineError`. */
  datatype Fault =
    | NilReceiver            // NoMethodError: a String method called on nil
    | NilConversion          // TypeError: `"_" + nil`
    | NullByte               // ArgumentError: a path holding a NUL character
    | EngineError(message: string)

  /** Strings are sequences of characters; paths are strings. */
  type Path = string

  /** The Rack environment of one request. */
  type Env = map<string, string>

  /** An opaque compiled template: the file it was compiled from and the
      source text the engine read at compile time. */
  datatype Template = Template(path: Path, source: string)
}
