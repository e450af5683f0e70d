/** An octet as the .NET `byte` type holds it. */
module Bytes {

  newtype byte = b: int | 0 <= b < 256
}
