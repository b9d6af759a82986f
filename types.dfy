/** Values shared by the encoder, the decoder and the frame list: the C++ integer
    conversions the program relies on, the output bit depth, Qt's rectangle and
    the per-input frame descriptor. */
module Types {

  datatype Option<T> = None | Some(value: T)

  type Byte = bv8

  const UINT32_MAX: int := 0xFFFF_FFFF
  const TWO_TO_THE_32: int := 0x1_0000_0000

  /** `static_cast<uint32_t>` of a C++ integer: reduction modulo 2^32. */
  function ToUint32(x: int): (r: int)
    ensures 0 <= r <= UINT32_MAX
    ensures 0 <= x <= UINT32_MAX ==> r == x
    ensures (x - r) % TWO_TO_THE_32 == 0
  {
    x % TWO_TO_THE_32
  }

  /** The output sample encoding chosen in the bit-depth combo box; the combo index
      is cast to the enum, so a value outside the four named ones is representable. */
  datatype BitDepth = Bit8 | Bit16 | Bit16F | Bit32F | Unsupported(index: int)

  /** libjxl's JxlDataType, as far as the program uses it. */
  datatype DataType = TypeUint8 | TypeUint16 | TypeFloat16 | TypeFloat

  /** Qt's QRect, kept as origin and size; `QRect()` is the null rectangle of size 0x0. */
  datatype Rect = Rect(x: int, y: int, width: int, height: int) {
    /** QRect::isValid: a non-empty rectangle. */
    predicate IsValid() { width > 0 && height > 0 }
    /** QRect::bottomRight: the last column and row inside the rectangle. */
    function Right(): int { x + width - 1 }
    function Bottom(): int { y + height - 1 }
  }

  const NullRect: Rect := Rect(0, 0, 0, 0)

  /** jxfrstch::InputFileData: one row of the frame list as the encoder consumes it.
      The blend mode is libjxl's JxlBlendMode as an integer (see BlendModes). */
  datatype InputFileData = InputFileData(
    filename: string,
    isRefFrame: int,
    frameDuration: int,
    isPageEnd: bool,
    frameReference: int,
    frameXPos: int,
    frameYPos: int,
    blendMode: int,
    frameName: string)
}
