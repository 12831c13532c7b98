/**
  The encoded form of a matrix, as values: header bytes followed by the raw
  element bytes, and what the Eigen decoder makes of a byte sequence. The
  methods of module ChannelSerialization are proved against these functions.
 */
module WireFormat {
  import opened Types
  import opened ElementKinds
  import opened Header

  /** The fatal `CHECK_*`s of the codec, one per check. */
  datatype Check =
    | NegativeRows      // CHECK_GE(rows, 0) of the string encoder
    | NegativeCols      // CHECK_GE(cols, 0) of the string encoder
    | ShortBuffer       // CHECK_GE(size, header.size()) of the decoder
    | RowsMismatch      // CHECK_EQ(header.rows, ROWS) for a fixed row count
    | ColsMismatch      // CHECK_EQ(header.cols, COLS) for a fixed column count
    | DepthMismatch     // CHECK_EQ(header.depth, cv::DataType<SCALAR>::depth)
    | ChannelsMismatch  // CHECK_EQ(1u, header.channels)
    | SizeMismatch      // CHECK_EQ(size, total_size)
    | ScalarSizeMismatch // CHECK_EQ(sizeof(SCALAR), size) of the scalar byte copy

  /** How a call ends: it returns true, it returns false, or a CHECK aborts the process. */
  datatype Status = Success | Failure | Abort(check: Check)

  /** `sizeof(SCALAR) * rows * cols * channels`, over unbounded integers: no
      payload exactly when some count is zero, and at least one element's
      width otherwise. */
  function PayloadSize(kind: ElementKind, rows: nat, cols: nat, channels: nat): (n: nat)
    ensures n == 0 <==> rows == 0 || cols == 0 || channels == 0
    ensures n != 0 ==> n >= ByteSize(kind)
  {
    ByteSize(kind) * rows * cols * channels
  }

  /** `matrixSize + header.size()`: never below a header, so the encoders'
      `CHECK_GT(totalSize, 0u)` cannot fire. */
  function EncodedSize(kind: ElementKind, rows: nat, cols: nat, channels: nat): (n: nat)
    ensures n >= HeaderSize > 0
    ensures n - HeaderSize == PayloadSize(kind, rows, cols, channels)
  {
    PayloadSize(kind, rows, cols, channels) + HeaderSize
  }

  /** The bytes the encoders produce: the header at offset 0 and the payload
      copied unchanged right after it. */
  function Encode(kind: ElementKind, rows: U32, cols: U32, channels: U32, payload: seq<Byte>): (r: seq<Byte>)
    requires |payload| == PayloadSize(kind, rows, cols, channels)
    ensures |r| == EncodedSize(kind, rows, cols, channels)
    ensures ParseHeader(r, 0) == Some(MakeHeaderFields(kind, rows, cols, channels))
    ensures r[HeaderSize..] == payload
  {
    var h := MakeHeaderFields(kind, rows, cols, channels);
    HeaderRoundTrip(h, [], payload);
    assert [] + HeaderBytes(h) + payload == HeaderBytes(h) + payload;
    HeaderBytes(h) + payload
  }

  /** One dimension of an `Eigen::Matrix<SCALAR, ROWS, COLS>`: a compile-time
      count, or `Eigen::Dynamic`. */
  datatype Extent = Dynamic | Fixed(n: nat) {
    predicate Admits(k: nat) {
      Fixed? ==> k == n
    }
  }

  /** The template arguments ROWS and COLS of the destination type. */
  datatype Shape = Shape(rows: Extent, cols: Extent) {
    predicate Admits(r: nat, c: nat) {
      rows.Admits(r) && cols.Admits(c)
    }
  }

  /** What `deSerializeFromBuffer` into an Eigen matrix makes of a buffer: the
      matrix it holds afterwards, or the status it ends with. */
  datatype Decoding =
    | Decoded(rows: U32, cols: U32, payload: seq<Byte>)
    | Refused(status: Status)
  {
    function Outcome(): Status {
      if Decoded? then Success else status
    }
  }

  /** The Eigen decoder's checks, in the source's order: a header's worth of
      bytes, the header parse, the fixed row and column counts, the depth tag,
      a single channel, and the exact total length. */
  function DecodeMatrix(kind: ElementKind, shape: Shape, bytes: seq<Byte>): (r: Decoding)
    ensures r.Refused? ==> r.status != Success
    ensures r.Decoded? ==> shape.Admits(r.rows, r.cols)
    ensures r.Decoded? ==> |r.payload| == PayloadSize(kind, r.rows, r.cols, 1) && |bytes| == EncodedSize(kind, r.rows, r.cols, 1)
  {
    if |bytes| < HeaderSize then Refused(Abort(ShortBuffer))
    else match ParseHeader(bytes, 0)
      case None => Refused(Failure)
      case Some(h) =>
        if shape.rows.Fixed? && h.rows != shape.rows.n then Refused(Abort(RowsMismatch))
        else if shape.cols.Fixed? && h.cols != shape.cols.n then Refused(Abort(ColsMismatch))
        else if h.depth != Depth(kind) then Refused(Abort(DepthMismatch))
        else if h.channels != 1 then Refused(Abort(ChannelsMismatch))
        else if |bytes| != PayloadSize(kind, h.rows, h.cols, 1) + HeaderSize then Refused(Abort(SizeMismatch))
        else Decoded(h.rows, h.cols, bytes[HeaderSize..])
  }

  /** Round trip: decoding what the Eigen encoders produce (one channel) into a
      matrix type that admits the shape gives back the same dimensions and the
      same element bytes. */
  lemma MatrixRoundTrip(kind: ElementKind, shape: Shape, rows: U32, cols: U32, payload: seq<Byte>)
    requires shape.Admits(rows, cols)
    requires |payload| == PayloadSize(kind, rows, cols, 1)
    ensures DecodeMatrix(kind, shape, Encode(kind, rows, cols, 1, payload)) == Decoded(rows, cols, payload)
  {
  }

  /** Soundness: the decoder accepts exactly the encodings, so a decoded buffer
      is the encoding of the matrix it decodes to. */
  lemma DecodedIsEncoding(kind: ElementKind, shape: Shape, bytes: seq<Byte>)
    requires DecodeMatrix(kind, shape, bytes).Decoded?
    ensures var d := DecodeMatrix(kind, shape, bytes);
            bytes == Encode(kind, d.rows, d.cols, 1, d.payload)
  {
    var d := DecodeMatrix(kind, shape, bytes);
    ParsedHeaderBytes(bytes, 0);
    assert bytes == bytes[0..HeaderSize] + bytes[HeaderSize..];
  }

  /** Under the 16-byte layout the header parse cannot fail once the length
      check has passed, so the Eigen decoder never returns false: every
      refusal is a CHECK abort. */
  lemma DecodeNeverReturnsFalse(kind: ElementKind, shape: Shape, bytes: seq<Byte>)
    ensures DecodeMatrix(kind, shape, bytes).Outcome() != Failure
  {
  }

  /** A buffer shorter than a header is refused by the first check. */
  lemma ShortBufferAborts(kind: ElementKind, shape: Shape, bytes: seq<Byte>)
    requires |bytes| < HeaderSize
    ensures DecodeMatrix(kind, shape, bytes) == Refused(Abort(ShortBuffer))
  {
  }

  /** Decoding an encoding of one element kind into a matrix of another kind
      stops at the depth check, provided the shape checks pass. */
  lemma OtherKindAborts(sent: ElementKind, kind: ElementKind, shape: Shape, rows: U32, cols: U32,
                        channels: U32, payload: seq<Byte>)
    requires sent != kind
    requires shape.Admits(rows, cols)
    requires |payload| == PayloadSize(sent, rows, cols, channels)
    ensures DecodeMatrix(kind, shape, Encode(sent, rows, cols, channels, payload)) == Refused(Abort(DepthMismatch))
  {
  }

  /** Decoding into a matrix whose fixed row count differs from the encoded one
      stops at the row check. */
  lemma FixedRowsMismatchAborts(kind: ElementKind, n: nat, cols: Extent, rows: U32, c: U32,
                                channels: U32, payload: seq<Byte>, sent: ElementKind)
    requires rows != n
    requires |payload| == PayloadSize(sent, rows, c, channels)
    ensures DecodeMatrix(kind, Shape(Fixed(n), cols), Encode(sent, rows, c, channels, payload)) == Refused(Abort(RowsMismatch))
  {
  }

  /** Decoding into a matrix whose fixed column count differs from the encoded
      one stops at the column check, whether ROWS is dynamic or a fixed count
      the encoding passes. */
  lemma FixedColsMismatchAborts(kind: ElementKind, rs: Extent, r: U32, n: nat, cols: U32,
                                channels: U32, payload: seq<Byte>, sent: ElementKind)
    requires rs.Admits(r)
    requires cols != n
    requires |payload| == PayloadSize(sent, r, cols, channels)
    ensures DecodeMatrix(kind, Shape(rs, Fixed(n)), Encode(sent, r, cols, channels, payload)) == Refused(Abort(ColsMismatch))
  {
  }

  /** A multi-channel encoding of the right kind and shape is refused by the
      single-channel check. */
  lemma MultiChannelAborts(kind: ElementKind, shape: Shape, rows: U32, cols: U32,
                           channels: U32, payload: seq<Byte>)
    requires channels != 1
    requires shape.Admits(rows, cols)
    requires |payload| == PayloadSize(kind, rows, cols, channels)
    ensures DecodeMatrix(kind, shape, Encode(kind, rows, cols, channels, payload)) == Refused(Abort(ChannelsMismatch))
  {
  }

  /** Any byte appended to or removed from the payload of a valid encoding
      makes the length check fail. */
  lemma WrongLengthAborts(kind: ElementKind, shape: Shape, rows: U32, cols: U32, payload: seq<Byte>)
    requires shape.Admits(rows, cols)
    requires |payload| != PayloadSize(kind, rows, cols, 1)
    ensures DecodeMatrix(kind, shape, HeaderBytes(MakeHeaderFields(kind, rows, cols, 1)) + payload) == Refused(Abort(SizeMismatch))
  {
    var h := MakeHeaderFields(kind, rows, cols, 1);
    HeaderRoundTrip(h, [], payload);
    assert [] + HeaderBytes(h) + payload == HeaderBytes(h) + payload;
  }
}
