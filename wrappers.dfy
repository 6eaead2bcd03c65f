/** Optional values and results that carry an exception, the model's
    counterparts of C# `null` and of a thrown exception. */
module Wrappers {

  /** A value that may be absent (a C# reference that may be `null`). */
  datatype Option<+T> = None | Some(value: T)

  /** The outcome of an operation that either returns a value or throws. */
  datatype Result<+T, +E> = Success(value: T) | Failure(error: E)

  /** The .NET exceptions the modelled code lets escape. */
  datatype Exception =
    | EndOfStream                     // BinaryReader ran past the end of its stream
    | NotSupported(extension: string) // an image type the face encoder cannot load
    | ArgumentNull                    // a null dictionary key
}
