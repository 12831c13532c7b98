/**
  The wire header `HeaderInformation`: four `uint32_t` fields in the order rows,
  cols, depth, channels.

  The member functions `size()`, `serializeToBuffer` and `deSerializeFromBuffer`
  are declared at lines 21-23 of channel-serialization.h and defined out of
  line, not in that header. They are modelled on an assumed layout: the four
  fields as little-endian 32-bit words, in field order, 16 bytes in all, with
  no padding. The C++ `serializeToBuffer(char*, size_t)` and
  `deSerializeFromBuffer(const char*, size_t)` receive no buffer length, so
  the model's writer and reader succeeding exactly when the buffer holds
  `offset + 16` bytes is a modelling choice the real callee could not make;
  the proofs that the codec's false returns are never taken rest on it.
 */
module Header {
  import opened Types
  import opened ElementKinds

  /** `HeaderInformation::size()`: the same for every header. */
  const HeaderSize: nat := 16

  /** The value held by a `HeaderInformation`. */
  datatype HeaderFields = HeaderFields(rows: U32, cols: U32, depth: U32, channels: U32)

  /** 256 to the power `n`: the number of values `n` bytes can hold. */
  function Power256(n: nat): (p: nat)
    ensures p > 0
  {
    if n == 0 then 1 else 256 * Power256(n - 1)
  }

  /** `value` as `width` bytes, least significant first (bits beyond the width are dropped). */
  function LittleEndian(value: nat, width: nat): (b: seq<Byte>)
    ensures |b| == width
  {
    if width == 0 then [] else [(value % 256) as Byte] + LittleEndian(value / 256, width - 1)
  }

  /** Bytes, least significant first, read as an unsigned number below 256^|b|. */
  function FromLittleEndian(b: seq<Byte>): (v: nat)
    ensures v < Power256(|b|)
  {
    if |b| == 0 then 0 else b[0] as nat + 256 * FromLittleEndian(b[1..])
  }

  /** Any value that fits in `width` bytes is read back from its bytes. */
  lemma {:induction false} LittleEndianRoundTrip(value: nat, width: nat)
    requires value < Power256(width)
    ensures FromLittleEndian(LittleEndian(value, width)) == value
  {
    if width > 0 {
      LittleEndianRoundTrip(value / 256, width - 1);
      assert LittleEndian(value, width)[1..] == LittleEndian(value / 256, width - 1);
    }
  }

  /** Any bytes are the little-endian form of the number they encode. */
  lemma {:induction false} LittleEndianOfValue(b: seq<Byte>)
    ensures LittleEndian(FromLittleEndian(b), |b|) == b
  {
    if |b| > 0 {
      LittleEndianOfValue(b[1..]);
      var v := FromLittleEndian(b);
      assert v % 256 == b[0] as nat && v / 256 == FromLittleEndian(b[1..]);
      assert b == [b[0]] + b[1..];
    }
  }

  lemma Power256Of4()
    ensures Power256(4) == 0x1_0000_0000
  {
    assert Power256(2) == 65536;
  }

  /** One `uint32_t` as four bytes, least significant first. */
  function WordBytes(w: U32): (b: seq<Byte>)
    ensures |b| == 4
  {
    LittleEndian(w, 4)
  }

  /** Four bytes, least significant first, read as one `uint32_t`. */
  function WordValue(b: seq<Byte>): U32
    requires |b| == 4
  {
    Power256Of4();
    FromLittleEndian(b)
  }

  /** Reading back a written word gives the word. */
  lemma WordRoundTrip(w: U32)
    ensures WordValue(WordBytes(w)) == w
  {
    Power256Of4();
    LittleEndianRoundTrip(w, 4);
  }

  /** Writing back a read word gives the same four bytes: the word layout is a
      bijection between `uint32_t` values and 4-byte sequences. */
  lemma WordBytesOfValue(b: seq<Byte>)
    requires |b| == 4
    ensures WordBytes(WordValue(b)) == b
  {
    LittleEndianOfValue(b);
  }

  /** The serialized header: rows at offset 0, cols at 4, depth at 8, channels at 12. */
  function HeaderBytes(h: HeaderFields): (b: seq<Byte>)
    ensures |b| == HeaderSize
  {
    WordBytes(h.rows) + WordBytes(h.cols) + WordBytes(h.depth) + WordBytes(h.channels)
  }

  /** The header read from `buffer` at `offset`; None when fewer than
      `offset + HeaderSize` bytes are there. */
  function ParseHeader(buffer: seq<Byte>, offset: nat): (r: Option<HeaderFields>)
    ensures r.Some? <==> offset + HeaderSize <= |buffer|
  {
    if offset + HeaderSize <= |buffer| then
      Some(HeaderFields(WordValue(buffer[offset..offset + 4]),
                        WordValue(buffer[offset + 4..offset + 8]),
                        WordValue(buffer[offset + 8..offset + 12]),
                        WordValue(buffer[offset + 12..offset + 16])))
    else
      None
  }

  /** A header written anywhere in a buffer is read back unchanged from the
      offset it was written at, whatever surrounds it. */
  lemma HeaderRoundTrip(h: HeaderFields, before: seq<Byte>, after: seq<Byte>)
    ensures ParseHeader(before + HeaderBytes(h) + after, |before|) == Some(h)
  {
    var b := before + HeaderBytes(h) + after;
    var o := |before|;
    assert b[o..o + 4] == WordBytes(h.rows);
    assert b[o + 4..o + 8] == WordBytes(h.cols);
    assert b[o + 8..o + 12] == WordBytes(h.depth);
    assert b[o + 12..o + 16] == WordBytes(h.channels);
    WordRoundTrip(h.rows);
    WordRoundTrip(h.cols);
    WordRoundTrip(h.depth);
    WordRoundTrip(h.channels);
  }

  /** Every 16 bytes are the serialization of the header read from them. */
  lemma ParsedHeaderBytes(buffer: seq<Byte>, offset: nat)
    requires offset + HeaderSize <= |buffer|
    ensures HeaderBytes(ParseHeader(buffer, offset).value) == buffer[offset..offset + HeaderSize]
  {
    var s := buffer[offset..offset + HeaderSize];
    WordBytesOfValue(buffer[offset..offset + 4]);
    WordBytesOfValue(buffer[offset + 4..offset + 8]);
    WordBytesOfValue(buffer[offset + 8..offset + 12]);
    WordBytesOfValue(buffer[offset + 12..offset + 16]);
    assert s == buffer[offset..offset + 4] + buffer[offset + 4..offset + 8]
              + buffer[offset + 8..offset + 12] + buffer[offset + 12..offset + 16];
  }

  /** The header read at `offset` depends only on the 16 bytes there. */
  lemma ParseHeaderOfPrefix(buffer: seq<Byte>, size: nat, offset: nat)
    requires offset + HeaderSize <= size <= |buffer|
    ensures ParseHeader(buffer[..size], offset) == ParseHeader(buffer, offset)
  {
    assert buffer[..size][offset..offset + 4] == buffer[offset..offset + 4];
    assert buffer[..size][offset + 4..offset + 8] == buffer[offset + 4..offset + 8];
    assert buffer[..size][offset + 8..offset + 12] == buffer[offset + 8..offset + 12];
    assert buffer[..size][offset + 12..offset + 16] == buffer[offset + 12..offset + 16];
  }

  /** The header `makeHeaderInformation<SCALAR>` builds for a shape: the counts
      as given, and a depth tag from which the element kind reads back. */
  function MakeHeaderFields(kind: ElementKind, rows: U32, cols: U32, channels: U32): (h: HeaderFields)
    ensures h.rows == rows && h.cols == cols && h.channels == channels
    ensures KindOfDepth(h.depth) == Some(kind)
  {
    HeaderFields(rows, cols, Depth(kind), channels)
  }

  /** The `HeaderInformation` struct, whose fields the codec fills in place. */
  class HeaderInformation {
    var rows: U32
    var cols: U32
    var depth: U32
    var channels: U32

    /** A default-initialised header (the source leaves the fields indeterminate). */
    constructor ()
      ensures Fields() == HeaderFields(0, 0, 0, 0)
    {
      rows, cols, depth, channels := 0, 0, 0, 0;
    }

    function Fields(): HeaderFields
      reads this
    {
      HeaderFields(rows, cols, depth, channels)
    }

    /** `size()`: reads no field, so it cannot vary with the header's values;
        it is the length of every serialized header. */
    function Size(): (s: nat)
      ensures forall h: HeaderFields :: |HeaderBytes(h)| == s
    {
      HeaderSize
    }

    /** `serializeToBuffer(buffer, offset)`: writes the 16 header bytes at
        `offset`, leaving the rest of the buffer alone. */
    method SerializeToBuffer(buffer: array<Byte>, offset: nat) returns (ok: bool)
      modifies buffer
      ensures ok <==> offset + HeaderSize <= buffer.Length
      ensures ok ==> buffer[..] == old(buffer[..offset]) + HeaderBytes(Fields()) + old(buffer[offset + HeaderSize..])
      ensures !ok ==> buffer[..] == old(buffer[..])
    {
      if offset + HeaderSize > buffer.Length {
        return false;
      }
      var bytes := HeaderBytes(Fields());
      forall i | 0 <= i < HeaderSize {
        buffer[offset + i] := bytes[i];
      }
      assert buffer[..] == old(buffer[..offset]) + bytes + old(buffer[offset + HeaderSize..]);
      return true;
    }

    /** `deSerializeFromBuffer(bufferIn, offset)`: fills the fields from the
        16 bytes at `offset`; on failure the fields keep their values. */
    method DeSerializeFromBuffer(bufferIn: seq<Byte>, offset: nat) returns (ok: bool)
      modifies this
      ensures ok == ParseHeader(bufferIn, offset).Some?
      ensures Fields() == if ok then ParseHeader(bufferIn, offset).value else old(Fields())
    {
      var parsed := ParseHeader(bufferIn, offset);
      if parsed.None? {
        return false;
      }
      rows, cols, depth, channels := parsed.value.rows, parsed.value.cols, parsed.value.depth, parsed.value.channels;
      return true;
    }
  }

  /** `makeHeaderInformation<SCALAR>(rows, cols, channels, headerInformation)`:
      sets rows, cols and channels from the arguments and depth from the
      element type. The `int` to `uint32_t` conversions are exact only for
      non-negative counts, which the caller provides. */
  method MakeHeaderInformation(kind: ElementKind, rows: Int32, cols: Int32, channels: Int32,
                               headerInformation: HeaderInformation)
    requires 0 <= rows && 0 <= cols && 0 <= channels
    modifies headerInformation
    ensures headerInformation.rows == rows && headerInformation.cols == cols
    ensures headerInformation.channels == channels && headerInformation.depth == Depth(kind)
    ensures headerInformation.Fields() == MakeHeaderFields(kind, rows, cols, channels)
  {
    headerInformation.rows := rows;
    headerInformation.cols := cols;
    headerInformation.channels := channels;
    headerInformation.depth := Depth(kind);
  }
}
