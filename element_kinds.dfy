/**
  The element types a matrix may hold. `cv::DataType<SCALAR>::depth` turns the
  C++ element type into OpenCV's depth code; `sizeof(SCALAR)` gives its width.
  The template dispatch becomes a closed datatype and two lookup tables.
 */
module ElementKinds {
  import opened Types

  /** uchar, schar, ushort, short, int, float, double. */
  datatype ElementKind = U8 | S8 | U16 | S16 | S32 | F32 | F64

  /** OpenCV's depth code: CV_8U = 0, CV_8S = 1, CV_16U = 2, CV_16S = 3,
      CV_32S = 4, CV_32F = 5, CV_64F = 6; always below OpenCV's
      CV_DEPTH_MAX (8). */
  function Depth(k: ElementKind): (d: U32)
    ensures d < 8
  {
    match k
    case U8 => 0
    case S8 => 1
    case U16 => 2
    case S16 => 3
    case S32 => 4
    case F32 => 5
    case F64 => 6
  }

  /** `sizeof(SCALAR)` in bytes: a power of two up to 8, the width OpenCV's
      element-size table `CV_ELEM_SIZE1` gives the kind's depth code. */
  function ByteSize(k: ElementKind): (n: nat)
    ensures n == 1 || n == 2 || n == 4 || n == 8
    ensures n == ElemSize1(Depth(k))
  {
    match k
    case U8 => 1
    case S8 => 1
    case U16 => 2
    case S16 => 2
    case S32 => 4
    case F32 => 4
    case F64 => 8
  }

  /** OpenCV's `CV_ELEM_SIZE1(depth)`: the byte width of one element of each
      depth code CV_8U … CV_64F and CV_16F (7). */
  function ElemSize1(depth: nat): nat
    requires depth < 8
  {
    [1, 1, 2, 2, 4, 4, 8, 2][depth]
  }

  /** Reads a depth code back as an element kind; codes outside the table give None. */
  function KindOfDepth(d: nat): (r: Option<ElementKind>)
    ensures r.Some? ==> Depth(r.value) == d
    ensures r.None? ==> forall k :: Depth(k) != d
  {
    if d == 0 then Some(U8)
    else if d == 1 then Some(S8)
    else if d == 2 then Some(U16)
    else if d == 3 then Some(S16)
    else if d == 4 then Some(S32)
    else if d == 5 then Some(F32)
    else if d == 6 then Some(F64)
    else None
  }

  /** A depth code names exactly one of the modelled element kinds, so among
      them the decoder's depth check identifies the element type that was
      encoded. (OpenCV maps `bool` and `uchar` to CV_8U, and `char` and
      `schar` to CV_8S; those pairs have equal sizes and are one kind here.) */
  lemma DepthIdentifiesKind(k: ElementKind, d: nat)
    ensures KindOfDepth(d) == Some(k) <==> Depth(k) == d
  {
  }
}
