# tls_codec in Dafny

This project models `tls_codec`, a Rust crate that serializes values in the
presentation language of TLS (RFC 8446 section 3). It covers:

- big-endian unsigned integers `u8`, `u16`, `u32` and `u64`;
- fixed-size byte arrays `[u8; N]`;
- `Option<T>`, written as a tag byte and a payload;
- the length-prefixed vectors `TlsVecU8/U16/U32`;
- the secret vectors `SecretTlsVecU8/U16/U32`, which zeroize their contents
  when dropped;
- the crate's closed error enum.

Modules:

| file | module | models |
|---|---|---|
| `errors.dfy` | `Errors` | `Error`, `From<io::Error>`, `From<TryFromSliceError>` and `From<TryFromIntError>` |
| `bigendian.dfy` | `BigEndian` | `to_be_bytes` and `from_be_bytes` |
| `streams.dfy` | `Streams` | the byte reader (`read_exact` and `take`) and the append-only writer |
| `primitives.dfy` | `Primitives` | the unsigned integer codecs |
| `arrays.dfy` | `Arrays` | the `[u8; N]` codec |
| `codec.dfy` | `Codec` | the types (`Kind`), their values (`Value`), the encoding and decoding functions (`Size`, `EncodeWith`, `Decode`), the serializer and deserializer methods they specify, and `tls_serialize_detached` |
| `codec_properties.dfy` | `CodecProperties` | layout facts, the decode loop's behaviour, round trips, and the length-field discrepancy |
| `tls_vec.dfy` | `TlsVecs` | the vector object (`class TlsVec`): `new`, `from_slice`, `default`, `len`, `is_empty`, `get`, `len_len`, `push`, `pop`, `retain`, `into_vec`, `zeroize`, `drop`, and its serialization |

How the model is built:

- Values are a closed universe. The crate's generic `T` is a `Kind`:
  `KUInt(w)`, `KArray(n)`, `KOption(k)` or `KVec(lw, k)`.
- Decoding is a pure function over the readable window `data[pos..limit]`.
  It returns the value or error together with the position where reading
  stopped.
- The deserializer methods work on a `Reader` object. Each is proved to
  advance the reader exactly as that function says.
- The serializer methods append to a `Writer`. Each is proved to append
  exactly the bytes `Encode` gives.

The vector encoder and decoder disagree about the length field:

- The encoder writes the number of elements (`tls_vec.rs:315`).
- The decoder reads the field as a number of bytes and bounds the element
  loop with `take` (`tls_vec.rs:328-329`), as RFC 8446 section 3.4 says.

The model keeps both rules apart with `LengthPrefix = ElementCount |
ByteCount`. The crate's encoder is `Encode = EncodeWith(ElementCount, ·)`.
What is proved:

- Under `ByteCount`, decoding inverts encoding for every value.
- Under `ElementCount`, it does so only when every vector's elements are one
  byte long.
- A four-`u16` vector is a counterexample.

## Model

| member | source | states |
|---|---|---|
| Errors.FromIoError | tls_codec/src/lib.rs:44-51 | an io error becomes `EndOfStream` exactly when its kind is `UnexpectedEof`; every other kind becomes a `DecodingError` whose message starts "io error: " |
| Errors.FromConversionError | tls_codec/src/primitives.rs:81-85 | a `TryFromSliceError` becomes `InvalidInput`, and only it does; a `TryFromIntError` becomes `InvalidVectorLength` (tls_vec.rs:418-422), and only it does |
| BigEndian.FromToBigEndian | tls_codec/src/primitives.rs:54-56 | `from_be_bytes` of the n-byte `to_be_bytes` of x is x |
| BigEndian.ToFromBigEndian | tls_codec/src/primitives.rs:62 | `to_be_bytes` of `from_be_bytes` of s is s: no two byte strings read as the same integer |
| Streams.ReadExact | tls_codec/src/primitives.rs:55 | `read_exact` of n bytes succeeds exactly when n bytes remain in the window, yields those bytes and moves past them; otherwise it drains the window and fails with `EndOfStream` |
| Streams.Reader.ReadExactInto | tls_codec/src/primitives.rs:54-55 | fills the buffer in place and moves the position exactly as `ReadExact` says; the limit is unchanged |
| Streams.Reader.constructor | tls_codec/tests/decode.rs:5 | a reader over a byte slice starts at its first byte and may read up to its end |
| Streams.Reader.Restore | tls_codec/src/tls_vec.rs:329-345 | when the `take` borrow ends, the outer limit is in force again and the position keeps what the bounded reader consumed |
| Streams.Reader.Take | tls_codec/src/tls_vec.rs:329 | `take(n)`: the position is kept and the limit becomes the smaller of the old limit and position + n |
| Streams.Writer.WithCapacity | tls_codec/src/lib.rs:70 | `Vec::with_capacity(n)` is an empty buffer |
| Streams.Writer.Write | tls_codec/src/primitives.rs:62 | appends the bytes after everything written before |
| Primitives.UIntWidth.Bytes | tls_codec/src/primitives.rs:67-79 | the sizes of u8, u16, u32 and u64 are among 1, 2, 4 and 8 bytes |
| Primitives.UIntWidth.Max | tls_codec/src/primitives.rs:76-79 | `MAX` of an n-byte type is 256^n - 1 |
| Primitives.EncodeUInt | tls_codec/src/primitives.rs:62 | `to_be_bytes` is exactly the width of the type long |
| Primitives.DecodeUInt | tls_codec/src/primitives.rs:52-57 | a decoded integer fits its type |
| Primitives.SerializeUInt | tls_codec/src/primitives.rs:60-65 | appends `to_be_bytes` of the value and returns the width |
| Primitives.DeserializeUInt | tls_codec/src/primitives.rs:52-57 | advances the reader exactly as `DecodeUInt` says and returns its result |
| Primitives.UIntRoundTrip | tls_codec/src/primitives.rs:52-65 | decoding an integer's encoding gives the integer back and consumes exactly its width, whatever follows |
| Primitives.UIntReencode | tls_codec/src/primitives.rs:52-65 | a successful decode consumes the width, and re-encoding the result gives the bytes read |
| Primitives.UIntShortInput | tls_codec/src/primitives.rs:55 | with fewer bytes left than the width, decoding fails with `EndOfStream` |
| Primitives.ConsecutiveReads | tls_codec/tests/decode.rs:4-16 | from [77, 88, 1, 99], u8, u8 and u16 reads give 77, 88 and 355; a further u8 read fails with `EndOfStream` |
| Arrays.ArrayLen.Count | tls_codec/src/arrays.rs:23-37 | `serialized_len` of `[u8; N]` is N, one of 2, 4, 8, 16, 32 and 64 |
| Arrays.DecodeArray | tls_codec/src/arrays.rs:15-21 | a decoded array has exactly N bytes |
| Arrays.SerializeArray | tls_codec/src/arrays.rs:8-13 | appends the array's bytes verbatim |
| Arrays.DeserializeArray | tls_codec/src/arrays.rs:15-21 | advances the reader exactly as `DecodeArray` says and returns its bytes |
| Arrays.ArrayRoundTrip | tls_codec/src/arrays.rs:8-21 | the N written bytes decode back to the array, consuming N bytes; with fewer than N bytes left the result is `EndOfStream` |
| Arrays.ByteArrayExample | tls_codec_derive/tests/encode.rs:42-47 | [0, 1, 2, 3] as `[u8; 4]` is written as those bytes and read back |
| Codec.LenWidth.LenLen | tls_codec/src/tls_vec.rs:102-106 | `len_len` is the byte width of the length field's integer type |
| Codec.LenWidth.Max | tls_codec/src/tls_vec.rs:312 | the length field's `MAX` is 256^`len_len` - 1 |
| Codec.KindedIsWellFormed | tls_codec/src/tls_vec.rs:18-21 | every value of a type has integers that fit their types |
| Codec.EncodeWith | tls_codec/src/tls_vec.rs:310-321 | encoding fails only with `InvalidVectorLength` |
| Codec.EncodeLength | tls_codec/src/tls_vec.rs:349-357 | a successful encoding is exactly `serialized_len` bytes long, under either length-field rule |
| Codec.EncodeAllLength | tls_codec/src/tls_vec.rs:353-357 | the elements' encodings together are as long as the fold of their `serialized_len` |
| Codec.EncodeAllConcat | tls_codec/src/tls_vec.rs:316-318 | encoding two runs of elements gives both encodings in order, or an error when either run fails |
| Codec.EncodeAllPrefix | tls_codec/src/tls_vec.rs:316-318 | one more loop iteration appends the next element's encoding; an element that fails makes the whole loop fail |
| Codec.Decimal | tls_codec/src/primitives.rs:45 | the decimal numeral `{}` formats a tag into is never empty |
| Codec.DecimalRoundTrip | tls_codec/src/primitives.rs:45 | the numeral consists of digits only and reads back as the number it renders |
| Codec.OptionTagMessageNamesTag | tls_codec/src/primitives.rs:45 | the message is the fixed lead, the tag's decimal numeral, and the fixed tail; the numeral between them reads back as the tag |
| Codec.OptionTagMessageInjective | tls_codec/src/primitives.rs:45 | distinct tags give distinct error messages |
| Codec.Decode | tls_codec/src/tls_vec.rs:326-346 | a decode never reads beyond its window, and a successful one consumes at least one byte |
| Codec.DecodeOption | tls_codec/src/primitives.rs:33-47 | reads stay inside the window, and a decoded option consumed its tag |
| Codec.DecodeVec | tls_codec/src/tls_vec.rs:326-346 | reads stay inside the window, and a decoded vector consumed at least its whole length field (1, 2 or 4 bytes) |
| Codec.DecodeElems | tls_codec/src/tls_vec.rs:330-344 | the element loop never reads beyond its window |
| Codec.DecodeHasKind | tls_codec/src/tls_vec.rs:326-346 | a successful decode yields a value of the type asked for |
| Codec.Serialize | tls_codec/src/primitives.rs:17-31 | serializing appends exactly `Encode(v)` and returns its length, or fails with `Encode`'s error and keeps what was written before |
| Codec.SerializeVec | tls_codec/src/tls_vec.rs:310-321 | with more elements than `MAX`, fails with `InvalidVectorLength` having written nothing; otherwise appends exactly the encoding (element count, then the elements) |
| Codec.SerializeElems | tls_codec/src/tls_vec.rs:316-318 | the element loop appends the elements' encodings in order, or stops at the first error |
| Codec.Deserialize | tls_codec/src/primitives.rs:33-57 | advances the reader exactly as `Decode` says, returns its result, and keeps the reader's limit |
| Codec.DeserializeVec | tls_codec/src/tls_vec.rs:326-346 | reads the length field, bounds the reader with `take`, runs the loop, drops the bound; the result is `Decode`'s |
| Codec.DeserializeElems | tls_codec/src/tls_vec.rs:330-345 | the `loop`, with the pushes, yields exactly what `DecodeElems` says |
| Codec.SerializeDetached | tls_codec/src/lib.rs:69-73 | `tls_serialize_detached` returns exactly `Encode(v)` or its error, and a successful result is `serialized_len` bytes long |
| CodecProperties.ElementPlacement | tls_codec/src/tls_vec.rs:316-318 | element i's encoding sits right after those of the elements before it |
| CodecProperties.VecWireLayout | tls_codec/src/tls_vec.rs:311-318 | an encoded vector has at most `MAX` elements, is `serialized_len` bytes long, and starts with its element count as a `len_len`-byte big-endian integer |
| CodecProperties.OptionWire | tls_codec/src/primitives.rs:7-31 | an option is written as tag 0 alone, or tag 1 followed by the payload; its length is its size |
| CodecProperties.AtLimitEndOfStream | tls_codec/src/lib.rs:44-51 | at the end of the window every type fails with `EndOfStream` |
| CodecProperties.OptionTags | tls_codec/src/primitives.rs:33-47 | tag 0 gives None after one byte; tag 1 decodes a payload right after the tag; any other tag is a `DecodingError` naming the tag, with no payload read |
| CodecProperties.ElemsNeverEndOfStream | tls_codec/src/tls_vec.rs:333-341 | `EndOfStream` never escapes the element loop |
| CodecProperties.VecEndOfStreamOnlyFromLengthField | tls_codec/src/tls_vec.rs:328-341 | a vector decode fails with `EndOfStream` exactly when its length field cannot be read |
| CodecProperties.VecDecodeBounded | tls_codec/src/tls_vec.rs:328-329 | a vector decode consumes at most `len_len` plus the number the length field holds, whatever the element decoders do |
| CodecProperties.RoundTrip | tls_codec/src/tls_vec.rs:310-346 | decoding an encoding gives the value back and consumes exactly `serialized_len` bytes; with the byte-count length field this holds for every value, and with the element count when every vector has one-byte elements |
| CodecProperties.CrateRoundTrip | tls_codec/tests/decode.rs:18-29 | with the crate's own encoder, a value whose vectors have one-byte elements decodes back from its encoding, leaving what follows unread |
| CodecProperties.U8sEncoding | tls_codec/src/primitives.rs:60-65 | the elements of a vector of `u8` are written as the bytes themselves |
| CodecProperties.VecU8RoundTrip | tls_codec/src/tls_vec.rs:310-346 | a vector of `u8` is written as its length field and its bytes verbatim, and decodes back to itself |
| CodecProperties.VecU8Encoding | tls_codec/src/tls_vec.rs:310-321 | a vector of `u8` with at most `MAX` elements is written as its length field followed by its bytes |
| CodecProperties.VecTooLong | tls_codec/src/tls_vec.rs:311-314 | more elements than `MAX`: encoding fails with `InvalidVectorLength` |
| CodecProperties.CountPrefixCounterexample | tls_codec/src/tls_vec.rs:315-329 | four `u16` elements are written with length field 4, and the decoder returns only the first two, having consumed 5 of the 9 bytes |
| CodecProperties.ByteCountDecodesWhole | tls_codec/src/tls_vec.rs:327-346 | with the byte count 8 in the length field, the same four elements decode back whole, consuming all 9 bytes |
| CodecProperties.DeriveTestInput | tls_codec_derive/tests/decode.rs:129-139 | the elements 1, 2, 3 and 500 after the byte count 8 are the derive test's input [8, 0, 1, 0, 2, 0, 3, 1, 244] |
| CodecProperties.TruncatedVectorDecodesPartially | tls_codec/src/tls_vec.rs:333-341 | a length field promising more bytes than the input holds is not an error; the vector holds the elements read before the input ended |
| CodecProperties.VecU32Example | tls_codec_derive/tests/encode.rs:34-39 | [1, 2, 3, 4, 5] as a `TlsVecU32<u8>` is written as [0, 0, 0, 5, 1, 2, 3, 4, 5] |
| CodecProperties.VecU8DecodeExample | tls_codec/tests/decode.rs:18-29 | after a u8 read of 1, [4, 77, 88, 1, 99] decodes as a `TlsVecU8<u8>` to [77, 88, 1, 99], and nothing is left |
| TlsVecs.FilterKeeps | tls_codec/src/tls_vec.rs:94-100 | every retained element comes from the vector and satisfies the predicate |
| TlsVecs.FilterCount | tls_codec/src/tls_vec.rs:94-100 | exactly the elements satisfying the predicate are retained, each as often as it occurred |
| TlsVecs.FilterConcat | tls_codec/src/tls_vec.rs:94-100 | retaining from two runs retains from each run in turn, so the original order is kept |
| TlsVecs.FilterIdempotent | tls_codec/src/tls_vec.rs:94-100 | retaining twice with the same predicate is retaining once |
| TlsVecs.Zero | tls_codec/src/tls_vec.rs:376-380 | a zeroized value holds zeros only: an integer becomes 0, an array keeps its length with all bytes 0, an option becomes `None`, and a vector becomes empty |
| TlsVecs.ZeroKeepsKind | tls_codec/src/tls_vec.rs:376-380 | a zeroized element keeps its type |
| TlsVecs.ZeroOfZero | tls_codec/src/tls_vec.rs:376-380 | zeroizing a zeroed value changes nothing |
| TlsVecs.Wiped | tls_codec/src/tls_vec.rs:376-380 | the allocation after zeroize: the first n slots hold zeroed values, the rest are unchanged, the length is kept |
| TlsVecs.WipedTwice | tls_codec/src/tls_vec.rs:376-380 | zeroizing an allocation a second time changes nothing |
| TlsVecs.TlsVec.Len | tls_codec/src/tls_vec.rs:38-42 | the number of elements |
| TlsVecs.TlsVec.IsEmpty | tls_codec/src/tls_vec.rs:56-60 | empty exactly when the length is 0 |
| TlsVecs.TlsVec.Get | tls_codec/src/tls_vec.rs:80-85 | `Some` of element i exactly when i is below the length, `None` otherwise |
| TlsVecs.TlsVec.LenLen | tls_codec/src/tls_vec.rs:102-106 | `len_len` is 1, 2 or 4 (1 only for U8), and the length field's `MAX` is 256^`len_len` - 1 |
| TlsVecs.TlsVec.Push | tls_codec/src/tls_vec.rs:68-72 | appends the element, written to the slot after the last one; the length grows by one, the new element is last, and the later slots are unchanged |
| TlsVecs.TlsVec.Pop | tls_codec/src/tls_vec.rs:74-78 | returns and removes the last element, or returns `None` and changes nothing when empty; the allocation's slots are unchanged, so the moved-out element still sits in its slot |
| TlsVecs.TlsVec.Retain | tls_codec/src/tls_vec.rs:92-100 | the vector becomes `Filter` of the old one, every element keeps its type, and the slots past the new length are unchanged |
| TlsVecs.TlsVec.IntoVec | tls_codec/src/tls_vec.rs:62-66 | returns all the elements with their allocation and leaves an empty vector with no slots behind |
| TlsVecs.TlsVec.Zeroize | tls_codec/src/tls_vec.rs:376-380 | the allocation becomes `Wiped`: the slot of every element holds its zeroed value, the slots past the old length are unchanged, and the vector is empty |
| TlsVecs.TlsVec.Drop | tls_codec/src/tls_vec.rs:383-387 | `drop` of a secret vector leaves the same allocation as `zeroize`: every element's slot zeroed, the vector empty |
| TlsVecs.TlsVec.SerializedLen | tls_codec/src/tls_vec.rs:349-357 | `len_len` plus the elements' sizes, which is exactly the length of a successful encoding |
| TlsVecs.TlsVec.Serialize | tls_codec/src/tls_vec.rs:310-321 | appends exactly the vector's encoding, `serialized_len` bytes long, or fails with `InvalidVectorLength`: having written nothing when there are more elements than `MAX`, and otherwise (a nested vector too long) keeping what was written before |
| TlsVecs.TlsVec.Deserialize | tls_codec/src/tls_vec.rs:323-347 | a fresh vector of the type holding exactly what `Decode` reads, or `Decode`'s error; the reader advances as `Decode` says |
| TlsVecs.Popped | tls_codec/src/tls_vec.rs:74-78 | `pop` of an empty vector gives `None`; otherwise the rest followed by the returned element is the old vector |
| TlsVecs.PopAfterPush | tls_codec/src/tls_vec.rs:68-78 | `pop` right after `push` returns the pushed element and restores the vector |
| TlsVecs.EncodedVecLength | tls_codec/src/tls_vec.rs:349-357 | a vector's encoding is `len_len` plus the elements' sizes long |
| TlsVecs.CountAtMostBytes | tls_codec/src/tls_vec.rs:315-329 | the element count the encoder writes never exceeds the byte count the decoder expects, and equals it exactly when every element is one byte long |
| TlsVecs.TlsVec.New | tls_codec/src/tls_vec.rs:24-28 | `new` wraps exactly the given elements, of the given length-field type and variant, and its slots hold exactly them |
| TlsVecs.TlsVec.FromSlice | tls_codec/src/tls_vec.rs:30-36 | `from_slice` holds exactly the slice's elements, in slots of its own |
| TlsVecs.TlsVec.Default | tls_codec/src/tls_vec.rs:176-183 | `default` is an empty vector with no slots |
| TlsVecs.FromSliceSerializeExample | tls_codec_derive/tests/encode.rs:34-39 | `TlsVecU32::from_slice(&[1, 2, 3, 4, 5])` serializes to [0, 0, 0, 5, 1, 2, 3, 4, 5], nine bytes |
| TlsVecs.NewThenIntoVec | tls_codec/src/tls_vec.rs:24-66 | `into_vec` of a vector made by `new` gives back the elements it was made from |

## Left out

- Generic element types: `T` ranges over the closed universe `Kind` (the integers, the arrays, options and vectors); derived structs and enums are not part of this model.
- `Codec.Size` stands for both size traits of the crate: `Size::tls_serialized_len` of the integers and `Option` (primitives.rs:7-13, 67-71) and `TlsSize::serialized_len` (lib.rs:57-59) of the arrays and vectors (arrays.rs:23-27, tls_vec.rs:349-357). The model has one function for both.
- The serde support, `Hash`, `Index`, `IndexMut`, `Borrow`, `FromIterator`, the `From` conversions to and from `Vec<T>`, `as_slice`, `to_vec` and `iter`: they are plain views of the wrapped vector and are not modelled.
- `From<Infallible>` (tls_vec.rs:424-428) has no values to convert, so it has no model.
- The serializer interfaces in the crate differ. The integer and `Option` serializers take a `Write` and return the byte count (primitives.rs:18, 61); the vector serializer takes a `Write` and returns `()` (tls_vec.rs:310, 319); the array serializer takes a `Vec<u8>` and returns `()` (arrays.rs:9-11). The model appends to a `Writer` throughout. `Codec.Serialize`, `Codec.SerializeVec` and `TlsVecs.TlsVec.Serialize` return the byte count for every value, including vectors and arrays, for which the crate returns `()`.
- `TlsVecs.TlsVec.Retain`: `retain` takes an `FnMut(&T) -> bool` closure, which may keep state between calls; the model takes a pure predicate `Value -> bool`, so a stateful predicate is not modelled.
- `Writer.Write`: `Write::write` may in general write fewer bytes than asked. The model appends all of them, as a `Vec<u8>` writer does.
- Io errors other than end of input are never raised by the in-memory reader. They appear only in the `FromIoError` mapping.
- `usize` arithmetic: `len` and the `serialized_len` fold are unbounded integers here, so overflow of the fold is not modelled.
- `TlsVecs.TlsVec.Zeroize` relies on the `zeroize` crate, whose source is not part of this model. Its `Vec` zeroizing is modelled on the `slots` of the allocation: each element's slot is overwritten by its zeroed value, then the vector is cleared. Later versions of that crate also write zero bytes over the whole spare capacity; the model leaves the slots past the old length as they were. Nothing is claimed about memory that has been freed.
- `TlsVecs.TlsVec.Push`: the allocation has unbounded room in the model. A `Vec` that grows moves its elements to a new allocation and frees the old one without zeroizing it; that copy is not modelled.
- `TlsVecs.TlsVec.New` and `TlsVecs.TlsVec.FromSlice`: the new vector's allocation is taken to hold exactly its elements; what a caller's `Vec` holds past its length is not known to the model.
- `TlsVecs.TlsVec.Drop` is a method the model calls explicitly. The drops Rust inserts are not modelled: at the end of a secret vector's scope; on the `return Err` at tls_vec.rs:339, which drops a partly filled secret vector; and on the `self` that `into_vec` consumes, which is empty by then. `TlsVecs.TlsVec.Deserialize` builds its vector only once `Codec.DeserializeVec` has succeeded, so no partly filled vector exists in the model.
- `TlsVecs.Zero` and `TlsVecs.ZeroOfZero` follow the same reading for nested values: an option is zeroized to `None` and a nested vector to the empty vector.
- Drop of a public (non-secret) vector does nothing observable and has no model.
- `from_slice` copies the slice. Dafny sequences are values, so the copy and the original cannot alias.
- A vector whose length field promises more bytes than the input holds is not rejected. The code ends the element loop on `EndOfStream` and returns the elements read so far (tls_vec.rs:333-341). The model follows the code; see `CodecProperties.TruncatedVectorDecodesPartially`. A TLS peer following RFC 8446 section 6.2 would treat such a message as undecodable (`decode_error`); that rejection is not part of the crate.

## Findings

| source | as written | input that shows it | evidently intended | confidence | as-written member | corrected member |
|---|---|---|---|---|---|---|
| tls_codec/src/tls_vec.rs:315 | the length field holds the number of elements, while the decoder at tls_vec.rs:328-329 reads it as a number of bytes | four `u16` elements: the encoder writes the length field 4 and 8 element bytes; decoding yields two elements and leaves 4 bytes unread | write the byte length of the elements' encodings (RFC 8446 section 3.4; the derive test input [8, 0, 1, 0, 2, 0, 3, 1, 244] decodes to four `u16` elements) | high; not executed | CodecProperties.CountPrefixCounterexample | CodecProperties.RoundTrip |
