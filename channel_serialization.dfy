/**
  The matrix encoders and the Eigen decoder of `aslam::internal`, as methods
  over byte arrays. `SCALAR` is the `kind` argument (or the matrix's kind);
  raw element pointers are the byte sequences they point to.
 */
module ChannelSerialization {
  import opened Types
  import opened ElementKinds
  import opened Header
  import opened WireFormat
  import opened Containers

  /** `serializeToString<SCALAR>(matrixData, rows, cols, channels, string)`.
      Aborts on a negative row or column count; otherwise resizes the string to
      header plus payload, writes the header at offset 0 and copies the payload
      after it. `channels` is not checked by the source; the caller passes a
      non-negative one. */
  method SerializeToString(kind: ElementKind, matrixData: seq<Byte>, rows: Int32, cols: Int32,
                           channels: Int32, str: ByteString) returns (st: Status)
    requires 0 <= channels
    requires 0 <= rows && 0 <= cols ==> PayloadSize(kind, rows, cols, channels) <= |matrixData|
    modifies str
    ensures rows < 0 ==> st == Abort(NegativeRows) && str.data == old(str.data)
    ensures 0 <= rows && cols < 0 ==> st == Abort(NegativeCols) && str.data == old(str.data)
    ensures 0 <= rows && 0 <= cols ==>
      && fresh(str.data) && str.data.Length == EncodedSize(kind, rows, cols, channels)
      && (st == Success || st == Failure)
      && (st == Success ==>
            str.data[..] == Encode(kind, rows, cols, channels, matrixData[..PayloadSize(kind, rows, cols, channels)]))
    ensures st != Failure
  {
    if rows < 0 {
      return Abort(NegativeRows);
    }
    if cols < 0 {
      return Abort(NegativeCols);
    }
    var header := new HeaderInformation();
    MakeHeaderInformation(kind, rows, cols, channels, header);
    var matrixSize := PayloadSize(kind, rows, cols, channels);
    var totalSize := matrixSize + header.Size();
    assert totalSize > 0;  // CHECK_GT(totalSize, 0u) cannot fire
    str.Resize(totalSize);
    var success := header.SerializeToBuffer(str.data, 0);
    if !success {
      // the string keeps its resized storage
      return Failure;
    }
    var offset := header.Size();
    forall i | 0 <= i < matrixSize {
      str.data[offset + i] := matrixData[i];
    }
    assert str.data[..] == HeaderBytes(header.Fields()) + matrixData[..matrixSize];
    return Success;
  }

  /** `serializeToBuffer<SCALAR>(matrixData, rows, cols, channels, buffer, totalSize)`.
      Reports the encoded length, allocates exactly that many bytes and fills
      them as the string encoder does. The source checks no count, so the
      counts are the caller's obligation here. On a failed header write the
      buffer is released and null is returned. */
  method SerializeToBuffer(kind: ElementKind, matrixData: seq<Byte>, rows: Int32, cols: Int32,
                           channels: Int32) returns (ok: bool, buffer: array?<Byte>, totalSize: nat)
    requires 0 <= rows && 0 <= cols && 0 <= channels
    requires PayloadSize(kind, rows, cols, channels) <= |matrixData|
    ensures totalSize == EncodedSize(kind, rows, cols, channels)
    ensures !ok ==> buffer == null
    ensures ok ==> buffer != null && fresh(buffer) && buffer.Length == totalSize
                   && buffer[..] == Encode(kind, rows, cols, channels, matrixData[..PayloadSize(kind, rows, cols, channels)])
    ensures ok
  {
    var header := new HeaderInformation();
    MakeHeaderInformation(kind, rows, cols, channels, header);
    var matrixSize := PayloadSize(kind, rows, cols, channels);
    totalSize := matrixSize + header.Size();
    buffer := new Byte[totalSize];
    var success := header.SerializeToBuffer(buffer, 0);
    if !success {
      buffer := null;
      return false, buffer, totalSize;
    }
    var offset := header.Size();
    forall i | 0 <= i < matrixSize {
      buffer[offset + i] := matrixData[i];
    }
    assert buffer[..] == HeaderBytes(header.Fields()) + matrixData[..matrixSize];
    ok := true;
  }

  /** `serializeToBuffer(const Eigen::Matrix&, buffer, size)`: the raw-buffer
      encoder on the matrix's storage, with one channel. The `Eigen::Index` to
      `int` conversions are exact only below 2^31. */
  method SerializeMatrixToBuffer(matrix: EigenMatrix) returns (ok: bool, buffer: array?<Byte>, size: nat)
    requires matrix.Valid() && matrix.rows < 0x8000_0000 && matrix.cols < 0x8000_0000
    ensures size == EncodedSize(matrix.kind, matrix.rows, matrix.cols, 1)
    ensures ok && buffer != null && fresh(buffer)
    ensures buffer[..] == Encode(matrix.kind, matrix.rows, matrix.cols, 1, matrix.data[..])
  {
    var matrixData := matrix.data[..];
    var numChannels := 1;
    ok, buffer, size := SerializeToBuffer(matrix.kind, matrixData, matrix.rows, matrix.cols, numChannels);
    assert matrixData[..PayloadSize(matrix.kind, matrix.rows, matrix.cols, 1)] == matrixData;
  }

  /** `serializeToString(const Eigen::Matrix&, string)`: the string encoder on
      the matrix's storage, with one channel. */
  method SerializeMatrixToString(matrix: EigenMatrix, str: ByteString) returns (st: Status)
    requires matrix.Valid() && matrix.rows < 0x8000_0000 && matrix.cols < 0x8000_0000
    modifies str
    ensures st == Success
    ensures str.data[..] == Encode(matrix.kind, matrix.rows, matrix.cols, 1, matrix.data[..])
  {
    var matrixData := matrix.data[..];
    var numChannels := 1;
    st := SerializeToString(matrix.kind, matrixData, matrix.rows, matrix.cols, numChannels, str);
    assert matrixData[..PayloadSize(matrix.kind, matrix.rows, matrix.cols, 1)] == matrixData;
  }

  /** `deSerializeFromBuffer(buffer, size, Eigen::Matrix*)`. `buffer` is the
      memory the pointer reaches, of which the first `size` bytes are the
      encoding. The outcome is `DecodeMatrix` of those bytes. On success the
      matrix holds the decoded shape and bytes; a refusal before the resize
      leaves it untouched; the length check comes after the resize, so when it
      fails the matrix already has the header's dimensions. */
  method DeSerializeMatrixFromBuffer(buffer: seq<Byte>, size: nat, matrix: EigenMatrix) returns (st: Status)
    requires size <= |buffer|
    requires matrix.Valid()
    modifies matrix, matrix.data
    ensures matrix.Valid()
    ensures st == DecodeMatrix(matrix.kind, matrix.shape, buffer[..size]).Outcome()
    ensures DecodeMatrix(matrix.kind, matrix.shape, buffer[..size]).Decoded? ==>
      var d := DecodeMatrix(matrix.kind, matrix.shape, buffer[..size]);
      matrix.rows == d.rows && matrix.cols == d.cols && matrix.data[..] == d.payload
    ensures st == Abort(SizeMismatch) ==>
      var h := ParseHeader(buffer[..size], 0).value;
      matrix.rows == h.rows && matrix.cols == h.cols
    ensures st.Abort? && st != Abort(SizeMismatch) ==>
      matrix.rows == old(matrix.rows) && matrix.cols == old(matrix.cols)
      && matrix.data == old(matrix.data) && matrix.data[..] == old(matrix.data[..])
  {
    var header := new HeaderInformation();
    if size < header.Size() {
      return Abort(ShortBuffer);
    }
    ParseHeaderOfPrefix(buffer, size, 0);
    var success := header.DeSerializeFromBuffer(buffer, 0);
    if !success {
      return Failure;
    }
    if matrix.shape.rows.Fixed? && header.rows != matrix.shape.rows.n {
      return Abort(RowsMismatch);
    }
    if matrix.shape.cols.Fixed? && header.cols != matrix.shape.cols.n {
      return Abort(ColsMismatch);
    }
    if header.depth != Depth(matrix.kind) {
      return Abort(DepthMismatch);
    }
    if 1 != header.channels {
      return Abort(ChannelsMismatch);
    }

    if matrix.shape.rows.Dynamic? && matrix.shape.cols.Dynamic? {
      matrix.Resize(header.rows, header.cols);
    } else if matrix.shape.rows.Dynamic? && matrix.shape.cols.Fixed? {
      matrix.Resize(header.rows, matrix.cols);
    } else if matrix.shape.rows.Fixed? && matrix.shape.cols.Dynamic? {
      matrix.Resize(matrix.rows, header.cols);
    }

    var matrixSize := PayloadSize(matrix.kind, matrix.rows, matrix.cols, 1);
    var totalSize := matrixSize + header.Size();
    if size != totalSize {
      return Abort(SizeMismatch);
    }
    forall i | 0 <= i < matrixSize {
      matrix.data[i] := buffer[header.Size() + i];
    }
    assert matrix.data[..] == buffer[..size][HeaderSize..];
    return Success;
  }

  /** `deSerializeFromString(string, Eigen::Matrix*)`: the buffer decoder on the
      string's bytes and length. */
  method DeSerializeMatrixFromString(str: ByteString, matrix: EigenMatrix) returns (st: Status)
    requires matrix.Valid()
    modifies matrix, matrix.data
    ensures matrix.Valid()
    ensures st == DecodeMatrix(matrix.kind, matrix.shape, old(str.data[..])).Outcome()
    ensures DecodeMatrix(matrix.kind, matrix.shape, old(str.data[..])).Decoded? ==>
      var d := DecodeMatrix(matrix.kind, matrix.shape, old(str.data[..]));
      matrix.rows == d.rows && matrix.cols == d.cols && matrix.data[..] == d.payload
    ensures st == Abort(SizeMismatch) ==>
      var h := ParseHeader(old(str.data[..]), 0).value;
      matrix.rows == h.rows && matrix.cols == h.cols
    ensures st.Abort? && st != Abort(SizeMismatch) ==>
      matrix.rows == old(matrix.rows) && matrix.cols == old(matrix.cols)
      && matrix.data == old(matrix.data) && matrix.data[..] == old(matrix.data[..])
  {
    var bytes := str.data[..];
    st := DeSerializeMatrixFromBuffer(bytes, |bytes|, matrix);
    assert bytes[..|bytes|] == bytes;
  }

  /** Encoding an Eigen matrix into a string and decoding the string into a
      matrix of the same element type whose ROWS/COLS admit the shape
      reproduces the dimensions and the element bytes, also when the target is
      the source matrix itself. */
  method MatrixStringRoundTrip(source: EigenMatrix, str: ByteString, target: EigenMatrix) returns (st: Status)
    requires source.Valid() && source.rows < 0x8000_0000 && source.cols < 0x8000_0000
    requires target.Valid() && target.kind == source.kind && target.shape.Admits(source.rows, source.cols)
    modifies str, target, target.data
    ensures st == Success
    ensures target.rows == old(source.rows) && target.cols == old(source.cols)
    ensures target.data[..] == old(source.data[..])
  {
    var encoded := SerializeMatrixToString(source, str);
    MatrixRoundTrip(source.kind, target.shape, source.rows, source.cols, source.data[..]);
    st := DeSerializeMatrixFromString(str, target);
  }
}
