/** The closed error model shared by every codec of the crate, the result
    type the codecs return, and the conversions from the standard library's
    error types (tls_codec/src/lib.rs, tls_vec.rs and primitives.rs). */
module Errors {

  /** The five failure kinds; only `DecodingError` carries data. */
  datatype Error =
    | EncodingError
    | InvalidVectorLength
    | InvalidInput
    | DecodingError(message: string)
    | EndOfStream

  datatype Option<+T> = None | Some(value: T)

  datatype Result<+T> = Ok(value: T) | Err(error: Error)

  /** The outcome of reading from a stream: what was read (or the failure) and
      the stream position the read left behind, in both cases. */
  datatype Decoded<+T> = Decoded(result: Result<T>, next: nat)

  /** The kinds of `std::io::Error` that matter here; every kind other than
      `UnexpectedEof` behaves alike, so one stands for all of them. */
  datatype IoErrorKind = UnexpectedEof | OtherKind(name: string)

  /** An `std::io::Error`: its kind and its `Debug` rendering. */
  datatype IoError = IoError(kind: IoErrorKind, debug: string)

  /** `From<std::io::Error>`: premature end of input becomes `EndOfStream`,
      anything else a `DecodingError` whose message names the io error. */
  function FromIoError(e: IoError): (r: Error)
    ensures r == EndOfStream <==> e.kind == UnexpectedEof
    ensures e.kind != UnexpectedEof ==>
              r.DecodingError? && "io error: " <= r.message
  {
    match e.kind
    case UnexpectedEof => EndOfStream
    case OtherKind(_) => DecodingError("io error: " + e.debug)
  }

  /** The io error `read_exact` raises when the input ends first. */
  const EofError: IoError := IoError(UnexpectedEof, "failed to fill whole buffer")

  /** The two fallible conversions whose errors the crate maps: a slice that
      does not fit a fixed-size array, and an integer that does not fit a
      narrower integer type. */
  datatype ConversionError = TryFromSliceError | TryFromIntError

  /** `From<TryFromSliceError>` gives `InvalidInput`; `From<TryFromIntError>`
      gives `InvalidVectorLength`. Neither produces a decoding error or an
      end of stream. */
  function FromConversionError(c: ConversionError): (r: Error)
    ensures r == InvalidInput <==> c == TryFromSliceError
    ensures r == InvalidVectorLength <==> c == TryFromIntError
  {
    match c
    case TryFromSliceError => InvalidInput
    case TryFromIntError => InvalidVectorLength
  }
}
