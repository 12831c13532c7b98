# Binary matrix codec of `aslam::internal` (channel serialization)

This project models the binary matrix codec of aslam_cv's
`channel-serialization.h` and proves properties of it in Dafny. An encoded
matrix is a fixed header (`HeaderInformation`: rows, cols, depth, channels,
each a `uint32_t`) followed by the raw element bytes, with no padding. The
model covers:

- the header record, its builder `makeHeaderInformation`, and its byte layout;
- the string and raw-buffer encoders and their Eigen overloads;
- the Eigen decoder with its checks in source order, and the string decoder
  that forwards to it;
- the fixed-width byte-copy path for single scalars.

The files:

- `types.dfy`: bytes, `uint32_t`, `int`, Option.
- `element_kinds.dfy`: the closed set of element types. Each has a table entry
  for its OpenCV depth code (`cv::DataType<SCALAR>::depth`, CV_8U = 0 …
  CV_64F = 6) and for its `sizeof`.
- `header.dfy`: the header as a value (`HeaderFields`) and as the in-place
  struct (`HeaderInformation` class), its 16-byte layout, and the word and
  header round trips.
- `wire_format.dfy`: the encoded bytes (`Encode`) and the decoder's verdict
  (`DecodeMatrix`) as functions, with the round-trip, soundness and rejection
  lemmas.
- `containers.dfy`: an Eigen matrix and a `std::string`. The matrix is its
  element kind, its compile-time ROWS/COLS, its current dimensions and a byte
  array. The string is a resizable byte array.
- `channel_serialization.dfy`: the encoders and decoders as methods. Each is
  proved against `Encode` / `DecodeMatrix`.
- `scalar_serialization.dfy`: the scalar byte-copy encoder and decoder, and the
  finding below.

Modelling assumptions and conventions:

- **Header layout.** The member functions `HeaderInformation::size()`,
  `serializeToBuffer` and `deSerializeFromBuffer` are declared at lines 21-23
  and defined out of line, not in this header. The model assumes 16 bytes: the
  four fields in declaration order, each as a little-endian 32-bit word.
- **Header bounds.** The C++ `serializeToBuffer(char*, size_t)` and
  `deSerializeFromBuffer(const char*, size_t)` receive no buffer length. The
  model's writer and reader succeed exactly when the buffer holds
  `offset + 16` bytes. That is a modelling choice the real callee could not
  implement, and the proofs that the false returns are never taken rest on it.
- **False returns.** Under that layout the header write in both encoders cannot
  fail: the buffer was just sized to header plus payload. The header parse in
  the decoder cannot fail either: it comes after the length check. The
  `return false` branches are kept in the method bodies. The contracts prove
  they are never taken (`ensures ok`, `st != Failure`, `DecodeNeverReturnsFalse`).
- **Outcomes.** A fatal `CHECK_*` becomes an `Abort(check)` outcome, and a
  `false` return becomes `Failure`.
- **Checks that cannot fail.** `CHECK_GT(totalSize, 0u)` becomes an `assert`,
  because it can never fire. `CHECK_NOTNULL` becomes nothing: references are
  non-null in Dafny.
- **memcpy.** In the encoders and the Eigen decoder, each `memcpy` is a
  `forall` statement over the destination array. The source has no loops. In
  the as-written scalar decoder, `memcpy(&value, …)` overwrites only the local
  pointer, so it is a dead local assignment. In the corrected scalar decoder,
  the copy into `*value` assigns the scalar's byte sequence.
- **Bytes.** A byte is a `newtype` over 0..255 rather than `bv8`. The
  little-endian arithmetic is on integers, and conversions between `bv8` and
  `int` made those proofs run out of resource.
- **Behaviour the model takes from the code, where a cleaner contract might be
  expected.**
  - The Eigen decoder resizes the destination before its final length check.
    So when that check aborts, the matrix already has the header's dimensions:
    a failed decode does not always leave the destination untouched.
  - Only the string encoder checks `rows >= 0` and `cols >= 0`. The raw-buffer
    encoder checks nothing.
  - Shape, type and length mismatches are fatal `CHECK`s, not recoverable
    errors.

## Model

| member | source | states |
|---|---|---|
| ElementKinds.Depth | aslam_cv/include/aslam/common/channel-serialization.h:33 | `cv::DataType<SCALAR>::depth`: each element type's OpenCV depth code, always below CV_DEPTH_MAX (8) |
| ElementKinds.ByteSize | aslam_cv/include/aslam/common/channel-serialization.h:44 | `sizeof(SCALAR)`: 1, 2, 4 or 8, and equal to the width OpenCV's `CV_ELEM_SIZE1` assigns the kind's depth code |
| ElementKinds.KindOfDepth | aslam_cv/include/aslam/common/channel-serialization.h:33 | the depth table read backwards: a code gives the element kind whose depth it is, and codes no kind has give None |
| ElementKinds.DepthIdentifiesKind | aslam_cv/include/aslam/common/channel-serialization.h:121 | a depth code and an element kind match in both directions, so among the modelled kinds the depth check pins down the encoded element type (OpenCV's `bool`/`uchar` and `char`/`schar` share codes and sizes and are one kind here) |
| Header.FromLittleEndian | aslam_cv/include/aslam/common/channel-serialization.h:17-20 | n bytes read least-significant first give a number below 256^n, so four bytes always fit a `uint32_t` field |
| Header.LittleEndianRoundTrip | aslam_cv/include/aslam/common/channel-serialization.h:17-20 | a value that fits in n bytes reads back unchanged from its n-byte little-endian form (assumed layout) |
| Header.LittleEndianOfValue | aslam_cv/include/aslam/common/channel-serialization.h:17-20 | any n bytes are the little-endian form of the number they encode, so the layout loses nothing in either direction |
| Header.WordRoundTrip | aslam_cv/include/aslam/common/channel-serialization.h:17-20 | a `uint32_t` field written as four little-endian bytes reads back as the same value (assumed layout) |
| Header.WordBytesOfValue | aslam_cv/include/aslam/common/channel-serialization.h:17-20 | any four bytes read as a word and written again give the same bytes, so the word layout is a bijection |
| Header.HeaderBytes | aslam_cv/include/aslam/common/channel-serialization.h:21-22 | a serialized header is always HeaderSize (16) bytes, whatever its field values |
| Header.ParseHeader | aslam_cv/include/aslam/common/channel-serialization.h:23 | reading a header at an offset succeeds exactly when offset + 16 bytes are present |
| Header.HeaderRoundTrip | aslam_cv/include/aslam/common/channel-serialization.h:22-23 | a header written at an offset reads back unchanged from that offset, whatever bytes surround it |
| Header.ParsedHeaderBytes | aslam_cv/include/aslam/common/channel-serialization.h:22-23 | any 16 bytes are the serialization of the header read from them, so no byte pattern fails the parse |
| Header.ParseHeaderOfPrefix | aslam_cv/include/aslam/common/channel-serialization.h:108-109 | the header read from the pointer's memory equals the one read from the first `size` bytes once `size >= 16` |
| Header.HeaderInformation.Size | aslam_cv/include/aslam/common/channel-serialization.h:21 | `size()` is the same for every header and equals the length of every serialized header |
| Header.MakeHeaderFields | aslam_cv/include/aslam/common/channel-serialization.h:26-34 | the header built for a shape carries the counts as given and a depth tag from which the element kind reads back |
| Header.HeaderInformation.SerializeToBuffer | aslam_cv/include/aslam/common/channel-serialization.h:22 | writes the header's 16 bytes at the offset and leaves every other byte alone; reports failure, writing nothing, when the buffer is too short |
| Header.HeaderInformation.DeSerializeFromBuffer | aslam_cv/include/aslam/common/channel-serialization.h:23 | fills the four fields from the bytes at the offset and returns true, or returns false and keeps them |
| Header.MakeHeaderInformation | aslam_cv/include/aslam/common/channel-serialization.h:26-34 | the header's rows, cols and channels equal the arguments and its depth is the element type's tag; nothing else is set |
| WireFormat.PayloadSize | aslam_cv/include/aslam/common/channel-serialization.h:44 | `sizeof(SCALAR)*rows*cols*channels`: zero exactly when some count is zero, and at least one element's width otherwise |
| WireFormat.EncodedSize | aslam_cv/include/aslam/common/channel-serialization.h:45 | `matrixSize + header.size()` is never below a header, so `CHECK_GT(totalSize, 0u)` cannot fire, and the excess over the header is the payload size |
| WireFormat.Encode | aslam_cv/include/aslam/common/channel-serialization.h:44-57 | the encoding is exactly payload size + 16 bytes, the built header reads back from offset 0, and the bytes from offset 16 on are the payload unchanged |
| WireFormat.DecodeMatrix | aslam_cv/include/aslam/common/channel-serialization.h:103-137 | the decoder's outcome: any refusal is not a success; an accepted buffer has a shape the destination admits and exactly header + `sizeof(SCALAR)*rows*cols` bytes |
| WireFormat.MatrixRoundTrip | aslam_cv/include/aslam/common/channel-serialization.h:83-137 | decoding a one-channel encoding into a matrix type that admits its shape gives back the same rows, cols and element bytes |
| WireFormat.DecodedIsEncoding | aslam_cv/include/aslam/common/channel-serialization.h:103-137 | every buffer the decoder accepts is exactly the encoding of the matrix it decodes to |
| WireFormat.DecodeNeverReturnsFalse | aslam_cv/include/aslam/common/channel-serialization.h:108-114 | once a header's worth of bytes is checked the header parse cannot fail, so the decoder never returns false, only succeeds or aborts |
| WireFormat.ShortBufferAborts | aslam_cv/include/aslam/common/channel-serialization.h:108 | a buffer shorter than a header aborts at the first check |
| WireFormat.OtherKindAborts | aslam_cv/include/aslam/common/channel-serialization.h:121 | an encoding of one element type decoded into a matrix of another type aborts at the depth check, once the shape checks pass |
| WireFormat.FixedRowsMismatchAborts | aslam_cv/include/aslam/common/channel-serialization.h:115-117 | an encoding whose row count differs from a fixed ROWS aborts at the row check |
| WireFormat.FixedColsMismatchAborts | aslam_cv/include/aslam/common/channel-serialization.h:118-120 | an encoding whose column count differs from a fixed COLS aborts at the column check, whether ROWS is dynamic or a fixed count the encoding passes |
| WireFormat.MultiChannelAborts | aslam_cv/include/aslam/common/channel-serialization.h:122 | a multi-channel encoding of the right type and shape aborts at the single-channel check |
| WireFormat.WrongLengthAborts | aslam_cv/include/aslam/common/channel-serialization.h:132-134 | a valid header followed by too few or too many payload bytes aborts at the exact-length check |
| Containers.Resized | aslam_cv/include/aslam/common/channel-serialization.h:49 | `std::string::resize(n)` gives n bytes: the old ones where they exist and zero bytes after |
| Containers.EigenMatrix.Resize | aslam_cv/include/aslam/common/channel-serialization.h:124-130 | the matrix takes the requested dimensions with storage for exactly that many elements; the old storage is kept when the element count does not change |
| Containers.ByteString.Resize | aslam_cv/include/aslam/common/channel-serialization.h:49 | the string's bytes become `Resized` of the old bytes |
| ChannelSerialization.SerializeToString | aslam_cv/include/aslam/common/channel-serialization.h:36-59 | negative rows or cols abort; otherwise the string is resized to exactly header + payload and then holds `Encode` of the shape and the first payload-size bytes of the data; the false return is never taken |
| ChannelSerialization.SerializeToBuffer | aslam_cv/include/aslam/common/channel-serialization.h:61-81 | the reported total size is header + `sizeof(SCALAR)*rows*cols*channels`; a freshly allocated buffer of exactly that size holds `Encode`; on failure the buffer would be null, but the call always succeeds |
| ChannelSerialization.SerializeMatrixToBuffer | aslam_cv/include/aslam/common/channel-serialization.h:83-91 | encodes the matrix with channels = 1: the buffer holds `Encode` of its rows, cols and storage bytes |
| ChannelSerialization.SerializeMatrixToString | aslam_cv/include/aslam/common/channel-serialization.h:93-101 | the string holds `Encode` of the matrix's rows, cols and storage bytes with channels = 1 |
| ChannelSerialization.DeSerializeMatrixFromBuffer | aslam_cv/include/aslam/common/channel-serialization.h:103-137 | the outcome is `DecodeMatrix` of the first `size` bytes; on success the matrix holds the decoded dimensions and bytes; an abort before the resize leaves the matrix untouched; a length abort leaves it resized to the header's dimensions |
| ChannelSerialization.DeSerializeMatrixFromString | aslam_cv/include/aslam/common/channel-serialization.h:139-144 | the same outcome and matrix state as the buffer decoder given the string's bytes and length, including the header's dimensions after a length abort |
| ChannelSerialization.MatrixStringRoundTrip | aslam_cv/include/aslam/common/channel-serialization.h:93-144 | encoding an Eigen matrix to a string and decoding it into a matrix of the same element type whose ROWS/COLS admit the shape succeeds and reproduces the dimensions and the element bytes, also when the target is the source matrix itself |
| ScalarSerialization.SerializeScalarToBuffer | aslam_cv/include/aslam/common/channel-serialization.h:176-185 | a size other than `sizeof(SCALAR)` aborts; otherwise a new buffer of that size holds the scalar's bytes |
| ScalarSerialization.DeSerializeScalarFromBufferAsWritten | aslam_cv/include/aslam/common/channel-serialization.h:186-192 | as written: a wrong size aborts, the right size reports success, and the destination scalar keeps its old bytes |
| ScalarSerialization.AsWrittenScalarRoundTripLosesValue | aslam_cv/include/aslam/common/channel-serialization.h:176-192 | as written, a one-byte 42 encoded and decoded into a scalar holding 0 still holds 0 afterwards |
| ScalarSerialization.DeSerializeScalarFromBuffer | aslam_cv/include/aslam/common/channel-serialization.h:186-192 | corrected decoder: a wrong size aborts with the scalar unchanged; the right size makes the scalar hold the buffer's bytes |
| ScalarSerialization.ScalarRoundTrip | aslam_cv/include/aslam/common/channel-serialization.h:176-192 | with the corrected decoder, encode then decode of a scalar into one of the same type is bit-exact |

## Left out

- The text path for scalars (`serializeToString` / `deSerializeFromString` for `SCALAR`, lines 158-174) is left out. It depends on `std::stringstream` formatting and `std::stoll` parsing, which are library behaviour.
- The `cv::Mat` overloads (lines 146-156) are left out: only their declarations exist.
- `aslam_cv/include/aslam/matcher/matching-engine.h` is not part of this model. It is an abstract interface whose wrapper calls `convertMatches`, and that function is not shown.
- Size arithmetic is over unbounded integers, so `size_t` overflow of `sizeof(SCALAR)*rows*cols*channels` is not modelled.
- The `int` to `uint32_t` conversions are not modelled for negative values. Where the source would convert a negative count, the model requires a non-negative one.
- SerializeToString: requires `channels >= 0`, which the source does not check. A negative count would wrap in the header and in the size computation.
- SerializeToBuffer: requires `rows`, `cols` and `channels` to be non-negative. The source checks none of them.
- SerializeMatrixToBuffer: requires rows and cols below 2^31. The `Eigen::Index` to `int` narrowing at the call is not modelled.
- SerializeMatrixToString: the same requirement, for the same reason.
- glog logging is not modelled, including the dump of the buffer on a failed header parse.
- `new` / `delete` are not modelled. Releasing the buffer on a failed header write is modelled as returning null.
- Eigen's storage order and element values are not modelled. A matrix is its dimensions plus its raw bytes, and its element values after a resize are unspecified.

## Findings

| source | as written | input that shows it | evidently intended | confidence | as-written member | corrected member |
|---|---|---|---|---|---|---|
| aslam_cv/include/aslam/common/channel-serialization.h:190 | `memcpy(&value, buffer, size)` copies the bytes over the local pointer `value`, so `*value` is never written, the call returns true, and the caller's scalar keeps its old value | a one-byte scalar 42 encoded with the byte-copy `serializeToBuffer`, then decoded into a scalar holding 0: it still holds 0 | `memcpy(value, buffer, size)`, so that `*value` receives the `sizeof(SCALAR)` bytes and the byte-copy path is bit-exact | high; not executed | ScalarSerialization.AsWrittenScalarRoundTripLosesValue | ScalarSerialization.ScalarRoundTrip |
