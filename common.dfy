/** Fixed-width integers, C integer arithmetic and the two std::vector
    operations (resize, memcpy into data()) that the camera callbacks use. */
module Common {

  /** uint8_t / char as delivered by the SDK callbacks. */
  type UInt8 = x: int | 0 <= x < 0x100

  /** uint16_t, one raw temperature sample. */
  type UInt16 = x: int | 0 <= x < 0x1_0000

  datatype Option<T> = None | Some(value: T)

  const INT32_MIN: int := -0x8000_0000
  const INT32_MAX: int := 0x7fff_ffff

  predicate IsInt32(x: int) {
    INT32_MIN <= x <= INT32_MAX
  }

  /** C's `/` on signed integers: the quotient is rounded toward zero
      (Dafny's `/` is Euclidean and differs for a negative dividend). */
  function TruncDiv(a: int, b: int): (q: int)
    requires b > 0
    ensures a >= 0 ==> 0 <= a - q * b < b
    ensures a < 0 ==> -b < a - q * b <= 0
  {
    if a >= 0 then a / b else -((-a) / b)
  }

  /** The video callbacks evaluate `width * height * 3 / 2` in `int`;
      signed overflow there is undefined behaviour, so the model admits only
      dimensions for which every intermediate product is an int. */
  predicate DimsFit(width: int, height: int) {
    IsInt32(width) && IsInt32(height) &&
    IsInt32(width * height) && IsInt32(width * height * 3)
  }

  /** The I420 frame size the video callbacks accept: a full-resolution luma
      plane plus two quarter-resolution chroma planes. */
  function ExpectedLen(width: int, height: int): (n: int)
    requires DimsFit(width, height)
    ensures n >= 0 <==> width * height >= 0
    ensures width * height >= 0 ==> width * height <= n && 2 * n <= 3 * (width * height)
    ensures IsInt32(n)
  {
    TruncDiv(width * height * 3, 2)
  }

  /** std::vector::resize: keeps the first `n` elements and value-initialises
      (to `zero`) any element it adds. */
  function Resize<T>(v: seq<T>, n: nat, zero: T): (r: seq<T>)
    ensures |r| == n
    ensures n <= |v| ==> r == v[..n]
    ensures forall k :: |v| <= k < n ==> r[k] == zero
    ensures forall k :: 0 <= k < n && k < |v| ==> r[k] == v[k]
  {
    if n <= |v| then v[..n] else v + seq(n - |v|, _ => zero)
  }

  /** memcpy(dst.data(), src, |src|): overwrites the first |src| elements. */
  function CopyInto<T>(dst: seq<T>, src: seq<T>): (r: seq<T>)
    requires |src| <= |dst|
    ensures |r| == |dst|
    ensures r[..|src|] == src && r[|src|..] == dst[|src|..]
  {
    src + dst[|src|..]
  }

  /** The callbacks' "resize only if the size differs, then memcpy" leaves
      the vector equal to the delivered bytes, whatever it held before. */
  lemma ResizeThenCopy<T>(dst: seq<T>, src: seq<T>, zero: T)
    ensures var sized := if |dst| != |src| then Resize(dst, |src|, zero) else dst;
            CopyInto(sized, src) == src
  {
    var sized := if |dst| != |src| then Resize(dst, |src|, zero) else dst;
    assert |sized| == |src|;
    assert sized[|src|..] == [];
  }

  /** One invocation of the SDK's video callback: the buffer pointer (None
      for a null pointer, otherwise the bytes it points at), the length the
      driver reports, and the resolution. */
  datatype Delivery = Delivery(pBuffer: Option<seq<UInt8>>, bufferLen: int, width: int, height: int)
  {
    /** What the callbacks rely on from the driver: a non-null pointer
        covers exactly `bufferLen` bytes, and the size expression does not
        overflow. */
    predicate WellFormed() {
      DimsFit(width, height) &&
      (pBuffer.Some? ==> |pBuffer.value| == bufferLen)
    }
  }
}
