/** Optional values and results with an error, used for Kotlin's nullable types and thrown exceptions. */
module Wrappers {

  /** A Kotlin `T?`: either no value (`null`) or a value. */
  datatype Option<+T> = None | Some(value: T)

  /** The outcome of an operation that either returns a value or throws. */
  datatype Result<+T, +E> = Ok(value: T) | Err(error: E)
}

/** Bytes as the JVM's `ByteArray` holds them, read as unsigned values. */
module Binary {

  /** One byte. Kotlin's `Byte` is signed; the model keeps the unsigned reading
      (`b and 0xFF`), which is what every consumer below (hex formatting,
      `ByteBuffer.getInt`, Base64, UTF-8) effectively uses. */
  type Byte = b: int | 0 <= b < 256

  type Bytes = seq<Byte>

  /** `Int.MAX_VALUE`: the largest size of a JVM array and the largest value of a Kotlin `Int`. */
  const INT_MAX: int := 0x7FFF_FFFF
}
