/**
  The fixed-width byte-copy path for a single scalar: no header, exactly
  `sizeof(SCALAR)` bytes. A scalar is modelled by its object representation.
 */
module ScalarSerialization {
  import opened Types
  import opened ElementKinds
  import opened WireFormat

  /** The `SCALAR` object a `SCALAR*` points to, as its bytes. */
  class ScalarSlot {
    const kind: ElementKind
    var bytes: seq<Byte>

    ghost predicate Valid()
      reads this
    {
      |bytes| == ByteSize(kind)
    }

    constructor (kind: ElementKind, bytes: seq<Byte>)
      requires |bytes| == ByteSize(kind)
      ensures Valid() && this.kind == kind && this.bytes == bytes
    {
      this.kind, this.bytes := kind, bytes;
    }
  }

  /** `serializeToBuffer(const SCALAR& value, buffer, size)`: the caller's size
      must be `sizeof(SCALAR)`; the new buffer holds the scalar's bytes. On the
      abort no buffer is handed out. */
  method SerializeScalarToBuffer(kind: ElementKind, value: seq<Byte>, size: nat)
    returns (st: Status, buffer: array?<Byte>)
    requires |value| == ByteSize(kind)
    ensures size != ByteSize(kind) ==> st == Abort(ScalarSizeMismatch) && buffer == null
    ensures size == ByteSize(kind) ==> st == Success && buffer != null && fresh(buffer) && buffer[..] == value
  {
    if ByteSize(kind) != size {
      return Abort(ScalarSizeMismatch), null;
    }
    buffer := new Byte[size];
    forall i | 0 <= i < size {
      buffer[i] := value[i];
    }
    st := Success;
  }

  /** `deSerializeFromBuffer(buffer, size, SCALAR* value)` as written:
      `memcpy(&value, buffer, size)` copies into the pointer parameter itself,
      so the call reports success while the scalar it points to keeps its old
      bytes. */
  method DeSerializeScalarFromBufferAsWritten(buffer: seq<Byte>, size: nat, value: ScalarSlot)
    returns (st: Status)
    requires size <= |buffer|
    ensures st == if size == ByteSize(value.kind) then Success else Abort(ScalarSizeMismatch)
    ensures value.bytes == old(value.bytes)
  {
    if size != ByteSize(value.kind) {
      return Abort(ScalarSizeMismatch);
    }
    var pointerParameter := buffer[..size];  // the overwritten local copy of `value`
    st := Success;
  }

  /** The as-written pair does not round-trip: a one-byte scalar 42 encoded and
      decoded into a scalar holding 0 still holds 0. */
  method AsWrittenScalarRoundTripLosesValue() returns (sent: seq<Byte>, received: seq<Byte>)
    ensures sent == [42] && received == [0]
    ensures sent != received
  {
    sent := [42];
    var st, buffer := SerializeScalarToBuffer(U8, sent, 1);
    var value := new ScalarSlot(U8, [0]);
    st := DeSerializeScalarFromBufferAsWritten(buffer[..], buffer.Length, value);
    received := value.bytes;
  }

  /** The evidently intended decoder, `memcpy(value, buffer, size)`: the
      scalar receives the buffer's bytes. */
  method DeSerializeScalarFromBuffer(buffer: seq<Byte>, size: nat, value: ScalarSlot)
    returns (st: Status)
    requires size <= |buffer|
    requires value.Valid()
    modifies value
    ensures value.Valid()
    ensures size == ByteSize(value.kind) ==> st == Success && value.bytes == buffer[..size]
    ensures size != ByteSize(value.kind) ==> st == Abort(ScalarSizeMismatch) && value.bytes == old(value.bytes)
  {
    if size != ByteSize(value.kind) {
      return Abort(ScalarSizeMismatch);
    }
    value.bytes := buffer[..size];
    st := Success;
  }

  /** With the intended decoder the byte-copy path is bit-exact: encoding a
      scalar and decoding it into a scalar of the same type copies it. */
  method ScalarRoundTrip(sent: seq<Byte>, value: ScalarSlot) returns (st: Status)
    requires value.Valid() && |sent| == ByteSize(value.kind)
    modifies value
    ensures st == Success && value.bytes == sent
  {
    var buffer;
    st, buffer := SerializeScalarToBuffer(value.kind, sent, ByteSize(value.kind));
    st := DeSerializeScalarFromBuffer(buffer[..], buffer.Length, value);
  }
}
