/** Shared primitives of both tokenizers: bytes of a C `char` buffer and the
    optional / fallible results that stand in for out-parameters and `ereport`. */
module Basics {

  /** One byte of a C `char` buffer, written as the character with that code. */
  type Byte = c: char | c as int < 256 witness ' '

  /** A positive length: a character is at least one byte long. */
  type Pos = n: nat | 1 <= n witness 1

  datatype Option<T> = None | Some(value: T)

  datatype Result<T, E> = Ok(value: T) | Err(error: E)
}
