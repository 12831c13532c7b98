/**
  The two containers the codec writes into: an `Eigen::Matrix<SCALAR, ROWS, COLS>`
  abstracted as its shape and its raw element bytes, and a `std::string` as a
  resizable byte array.
 */
module Containers {
  import opened Types
  import opened ElementKinds
  import opened WireFormat

  /** An Eigen matrix: the element type and the compile-time ROWS/COLS are
      constants, the current dimensions and the element storage change on
      `resize`. */
  class EigenMatrix {
    const kind: ElementKind
    const shape: Shape
    var rows: nat
    var cols: nat
    var data: array<Byte>

    /** A fixed dimension always has its compile-time value, and the storage
        holds exactly `sizeof(SCALAR) * rows * cols` bytes. */
    ghost predicate Valid()
      reads this
    {
      shape.Admits(rows, cols) && data.Length == PayloadSize(kind, rows, cols, 1)
    }

    constructor (kind: ElementKind, shape: Shape, rows: nat, cols: nat, elements: seq<Byte>)
      requires shape.Admits(rows, cols) && |elements| == PayloadSize(kind, rows, cols, 1)
      ensures Valid() && fresh(data)
      ensures this.kind == kind && this.shape == shape
      ensures this.rows == rows && this.cols == cols && data[..] == elements
    {
      this.kind, this.shape := kind, shape;
      this.rows, this.cols := rows, cols;
      data := new Byte[|elements|](i requires 0 <= i < |elements| => elements[i]);
    }

    /** `resize(r, c)` (`Eigen::NoChange` is passing the current value): new
        storage when the element count changes, the old storage otherwise; the
        element values are unspecified either way. */
    method Resize(r: nat, c: nat)
      requires Valid() && shape.Admits(r, c)
      modifies this
      ensures Valid() && rows == r && cols == c
      ensures old(rows * cols) == r * c ==> data == old(data)
      ensures old(rows * cols) != r * c ==> fresh(data)
    {
      if r * c != rows * cols {
        data := new Byte[PayloadSize(kind, r, c, 1)];
      } else {
        assert PayloadSize(kind, r, c, 1) == ByteSize(kind) * (r * c);
        assert PayloadSize(kind, rows, cols, 1) == ByteSize(kind) * (rows * cols);
      }
      rows, cols := r, c;
    }
  }

  /** `std::string::resize(n)`: keeps the first `n` bytes and pads with zero bytes. */
  function Resized(s: seq<Byte>, n: nat): (r: seq<Byte>)
    ensures |r| == n
    ensures forall i :: 0 <= i < n ==> r[i] == if i < |s| then s[i] else 0
  {
    if n <= |s| then s[..n] else s + seq(n - |s|, _ => 0)
  }

  /** A `std::string` used as a byte container. */
  class ByteString {
    var data: array<Byte>

    constructor (contents: seq<Byte>)
      ensures fresh(data) && data[..] == contents
    {
      data := new Byte[|contents|](i requires 0 <= i < |contents| => contents[i]);
    }

    method Resize(n: nat)
      modifies this
      ensures fresh(data) && data[..] == Resized(old(data[..]), n)
    {
      var grown := new Byte[n];
      forall i | 0 <= i < n {
        grown[i] := if i < data.Length then data[i] else 0;
      }
      data := grown;
    }
  }
}
