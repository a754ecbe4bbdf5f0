/** Result types and the error vocabulary shared by the codec and the file layer. */
module Outcome {

  datatype Option<+T> = None | Some(value: T)

  datatype Result<+T, +E> = Ok(value: T) | Err(error: E)

  /** The system or stream call an I/O error came out of. The program only sees an opaque error; the
      model keeps the call so that contracts can say which failures leave which state. */
  datatype Call =
    | Open | NotFound | CreateNew | NamesExhausted | Seek | Read | UnexpectedEnd | Write | WriteZero | Flush
    | SyncAll | Rename | Remove | Duplicate

  /** The decoding and encoding errors of the crate. */
  datatype EncodingError =
    | Io(call: Call)
    | InvalidMagic
    | UnsupportedVersion(version: int)
    | InvalidCompressionType(kind: int)
    | UnexpectedEof
    | UnknownTypeKey(key: int)
    | InvalidUtf8
    | InvalidValue(found: int)
    | TypeTooLarge(size: nat)
    | TooManyEntries(count: nat)
    | OtherDecodingError

  /** The errors of the file layer. `Overflow` stands for `usize` or `u64` arithmetic that leaves its range, which
      panics in a build with overflow checks; `CapacityOverflow` for an allocation of more bytes than `isize` counts,
      which panics in every build. */
  datatype FileError =
    | Encoding(error: EncodingError)
    | IO(call: Call)
    | ReservedSpaceExceeded(required: nat, available: nat)
    | SectionOffsetTooLarge(required: nat, limit: nat)
    | RangeOutOfBounds(offset: nat, end: nat, contentLength: nat)
    | ReadOnly
    | UnsupportedCompression
    | RangedReadOnCompressed
    | RawWriteRefused
    | Overflow
    | CapacityOverflow

  /** An error that comes out of a call the system refused; the others are the program's own findings. */
  predicate BySystem(e: FileError) {
    e.IO? && e.call !in {NotFound, UnexpectedEnd, NamesExhausted}
  }
}
