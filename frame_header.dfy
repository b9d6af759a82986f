/** The per-frame values the encoder derives before handing a frame to libjxl:
    the sample layout of the output bit depth, the size of the packed pixel
    buffer, the frame's duration in ticks, where the frame is placed on the
    canvas, the frame header with its override order, and the frame name. */
module FrameHeaders {
  import opened Types
  import BlendModes

  // ---------------------------------------------------------------------------
  // Sample layout

  /** The pixel format's data type for an output bit depth; an unsupported depth
      aborts the encode. */
  function PixelDataType(depth: BitDepth): (t: Option<DataType>)
    ensures t.None? <==> depth.Unsupported?
  {
    match depth
    case Bit8 => Some(TypeUint8)
    case Bit16 => Some(TypeUint16)
    case Bit16F => Some(TypeFloat16)
    case Bit32F => Some(TypeFloat)
    case Unsupported(_) => None
  }

  /** Bits per sample and exponent bits the basic info declares for a data type
      (the alpha channel gets the same pair). */
  function BitsPerSample(t: DataType): (bits: nat)
    ensures bits % 8 == 0 && 8 <= bits <= 32
  {
    match t
    case TypeUint8 => 8
    case TypeUint16 => 16
    case TypeFloat16 => 16
    case TypeFloat => 32
  }

  function ExponentBits(t: DataType): (bits: nat)
    ensures bits < BitsPerSample(t)
    ensures bits == 0 <==> t == TypeUint8 || t == TypeUint16
  {
    match t
    case TypeUint8 => 0
    case TypeUint16 => 0
    case TypeFloat16 => 5
    case TypeFloat => 8
  }

  /** Channels in the packed buffer: RGBA with alpha, RGB without. */
  function NumChannels(alpha: bool): (n: nat)
    ensures n == 3 || n == 4
    ensures n == 4 <==> alpha
  {
    if alpha then 4 else 3
  }

  /** Bytes per sample the per-frame buffer is sized with; an unsupported depth
      counts as one byte (the encode stops before the buffer is used). */
  function ByteSize(depth: BitDepth): (n: nat)
    ensures n == 1 || n == 2 || n == 4
  {
    match depth
    case Bit8 => 1
    case Bit16 => 2
    case Bit16F => 2
    case Bit32F => 4
    case Unsupported(_) => 1
  }

  /** The buffer's sample size agrees with the sample width the basic info
      declares, for every supported bit depth. */
  lemma ByteSizeMatchesSampleWidth(depth: BitDepth)
    requires !depth.Unsupported?
    ensures ByteSize(depth) * 8 == BitsPerSample(PixelDataType(depth).value)
  {
  }

  /** Size of the packed pixel buffer of a width x height frame. */
  function PackedBytes(alpha: bool, depth: BitDepth, width: nat, height: nat): (n: nat)
  {
    NumChannels(alpha) * ByteSize(depth) * (width * height)
  }

  /** The packed buffer holds exactly one sample of the declared width per channel
      and pixel, and nothing else. */
  lemma PackedBytesHoldOneSamplePerChannel(alpha: bool, depth: BitDepth, width: nat, height: nat)
    requires !depth.Unsupported?
    ensures PackedBytes(alpha, depth, width, height) * 8
         == (width * height) * NumChannels(alpha) * BitsPerSample(PixelDataType(depth).value)
    ensures width * height > 0 ==> PackedBytes(alpha, depth, width, height) >= 3 * width * height
  {
    var c, b, p := NumChannels(alpha), ByteSize(depth), width * height;
    ByteSizeMatchesSampleWidth(depth);
    calc {
      c * b * p * 8;
      == { assert c * b * p * 8 == p * c * (b * 8); }
      p * c * (b * 8);
    }
    assert c * b >= 3;
    assert c * b * p >= 3 * p by {
      assert (c * b - 3) * p >= 0;
    }
  }

  // ---------------------------------------------------------------------------
  // Duration

  /** qRound for a non-negative value: halves round up. qRound returns an `int`,
      so from INT32_MAX + 0.5 on it overflows; this rounding does not. */
  function Round(x: real): (n: int)
    requires x >= 0.0
    ensures n >= 0
    ensures x - 0.5 < n as real <= x + 0.5
  {
    (x + 0.5).Floor
  }

  function MaxReal(a: real, b: real): real { if a >= b then a else b }

  /** The source delay in milliseconds measured in ticks of
      numerator/denominator ticks per second (a tick lasts
      1000 * denominator / numerator ms). */
  function DelayInTicks(delay: int, numerator: int, denominator: int): real
    requires numerator >= 1 && denominator >= 1
  {
    (delay * numerator) as real / (denominator * 1000) as real
  }

  /** The duration written into a frame header.
      - The last or only subframe of an input (`moreFrames` false, or an input
        that is neither animated nor reports a frame count): 0 for an animated
        input; otherwise UINT32_MAX for a page end and the row's duration else.
      - A subframe followed by more, with no delay or animation off: 0.
      - Otherwise the source delay in ticks, rounded, and at least 1. */
  function FrameTick(isAnim: bool, imageCount: int, moreFrames: bool, isPageEnd: bool, frameDuration: int,
                     delay: int, animation: bool, numerator: int, denominator: int): (tick: int)
    requires numerator >= 1 && denominator >= 1
    ensures 0 <= tick <= UINT32_MAX
    ensures !(isAnim || imageCount > 0) ==>
      tick == if isPageEnd then UINT32_MAX else ToUint32(frameDuration)
    ensures (isAnim || imageCount > 0) && moreFrames && (delay == 0 || !animation) ==> tick == 0
  {
    if !(isAnim || imageCount > 0) || !moreFrames then
      if isAnim then 0
      else if isPageEnd then UINT32_MAX
      else ToUint32(frameDuration)
    else if delay == 0 || !animation then 0
    else ToUint32(Round(MaxReal(DelayInTicks(delay, numerator, denominator), 1.0)))
  }

  /** The last subframe of an input: an animated input ends with a zero-tick
      frame, a page end lasts UINT32_MAX ticks, and any other still keeps the
      duration of its row (reduced modulo 2^32). */
  lemma LastSubframeTick(isAnim: bool, imageCount: int, isPageEnd: bool, frameDuration: int,
                         delay: int, animation: bool, numerator: int, denominator: int)
    requires numerator >= 1 && denominator >= 1
    ensures var t := FrameTick(isAnim, imageCount, false, isPageEnd, frameDuration, delay, animation, numerator, denominator);
      && (isAnim ==> t == 0)
      && (!isAnim && isPageEnd ==> t == UINT32_MAX)
      && (!isAnim && !isPageEnd && 0 <= frameDuration <= UINT32_MAX ==> t == frameDuration)
  {
  }

  /** The largest value of a C++ `int`: qRound returns one. */
  const INT32_MAX: int := 0x7FFF_FFFF

  /** A timed subframe lasts at least one tick, and its tick count is the delay
      in ticks rounded to the nearest integer (a delay under one tick counts as
      one), as long as the rounding fits in the `int` qRound returns. */
  lemma TimedTickRoundsDelay(isAnim: bool, imageCount: int, isPageEnd: bool, frameDuration: int,
                             delay: int, numerator: int, denominator: int)
    requires numerator >= 1 && denominator >= 1
    requires isAnim || imageCount > 0
    requires delay != 0
    requires DelayInTicks(delay, numerator, denominator) < INT32_MAX as real + 0.5
    ensures var t := FrameTick(isAnim, imageCount, true, isPageEnd, frameDuration, delay, true, numerator, denominator);
            var x := MaxReal(DelayInTicks(delay, numerator, denominator), 1.0);
      && t >= 1
      && x - 0.5 < t as real <= x + 0.5
  {
    var x := MaxReal(DelayInTicks(delay, numerator, denominator), 1.0);
    assert Round(x) <= INT32_MAX;
  }

  /** A delay that is a whole number k >= 1 of ticks is encoded as k ticks. */
  lemma WholeTickDelayIsExact(imageCount: int, delay: int, numerator: int, denominator: int, k: int)
    requires numerator >= 1 && denominator >= 1 && imageCount > 0
    requires 1 <= k <= INT32_MAX
    requires delay * numerator == k * denominator * 1000
    ensures FrameTick(true, imageCount, true, false, 0, delay, true, numerator, denominator) == k
  {
    var q := (denominator * 1000) as real;
    assert DelayInTicks(delay, numerator, denominator) == k as real by {
      assert (delay * numerator) as real == k as real * q;
    }
    assert delay != 0;
  }

  // ---------------------------------------------------------------------------
  // Placement

  /** Whether a frame needs a crop header, and its offset on the canvas. */
  datatype Placement = Placement(needCrop: bool, x: int, y: int)

  /** The crop decision for subframe `subframe` of input `index`: a frame needs
      a crop when its size differs from the canvas, when a later input has a
      position, when a later subframe's rectangle is not at the origin, or when
      auto-crop cut it out of the baseline. The offset starts at the row's
      position (0 for the first input), and the rectangle's origin is added in
      the last two cases. */
  function PlaceFrame(index: nat, subframe: nat, width: int, height: int, rootWidth: int, rootHeight: int,
                      rowX: int, rowY: int, rect: Rect, acReset: bool): (p: Placement)
    ensures p.needCrop <==>
      || width != rootWidth || height != rootHeight
      || (index > 0 && (rowX != 0 || rowY != 0))
      || (subframe > 0 && (rect.x != 0 || rect.y != 0))
      || !acReset
    ensures var shifted := (subframe > 0 && (rect.x != 0 || rect.y != 0)) || !acReset;
      && p.x == (if index > 0 then rowX else 0) + (if shifted then rect.x else 0)
      && p.y == (if index > 0 then rowY else 0) + (if shifted then rect.y else 0)
  {
    var x0 := if index > 0 then rowX else 0;
    var y0 := if index > 0 then rowY else 0;
    var need := (width != rootWidth || height != rootHeight) || ((x0 != 0 || y0 != 0) && index > 0);
    if ((rect.x != 0 || rect.y != 0) && subframe > 0) || !acReset then
      Placement(true, x0 + rect.x, y0 + rect.y)
    else
      Placement(need, x0, y0)
  }

  /** The first frame of the first input, at canvas size and not auto-cropped,
      is written without a crop header at the origin, whatever its row says. */
  lemma FirstFrameIsNotCropped(width: int, height: int, rowX: int, rowY: int, rect: Rect)
    ensures PlaceFrame(0, 0, width, height, width, height, rowX, rowY, rect, true) == Placement(false, 0, 0)
  {
  }

  /** A frame auto-crop cut out of the baseline always gets a crop header, placed
      at its row's offset plus the origin of its cropped rectangle. */
  lemma AutoCroppedFrameIsPlacedAtItsRect(index: nat, subframe: nat, width: int, height: int,
                                         rootWidth: int, rootHeight: int, rowX: int, rowY: int, rect: Rect)
    ensures var p := PlaceFrame(index, subframe, width, height, rootWidth, rootHeight, rowX, rowY, rect, false);
      && p.needCrop
      && p.x == (if index > 0 then rowX else 0) + rect.x
      && p.y == (if index > 0 then rowY else 0) + rect.y
  {
  }

  // ---------------------------------------------------------------------------
  // Frame header

  /** JxlBlendInfo */
  datatype BlendInfo = BlendInfo(blendMode: int, source: int, alpha: int, clamp: bool)

  /** The fields of JxlFrameHeader the encoder sets. */
  datatype FrameHeader = FrameHeader(
    duration: int,
    saveAsReference: int,
    blend: BlendInfo,
    haveCrop: bool,
    cropX0: int,
    cropY0: int,
    xsize: int,
    ysize: int)

  /** JxlEncoderInitFrameHeader: no duration, no reference slot, REPLACE from
      slot 0, no crop. */
  const InitHeader: FrameHeader :=
    FrameHeader(0, 0, BlendInfo(BlendModes.REPLACE, 0, 0, false), false, 0, 0, 0, 0)

  /** What a JPEG XL source reports about its current frame: its blend info, its
      reference slot and its name (as the decoder reports it, which ends in the
      U+0000 of libjxl's name buffer). */
  datatype JxlSource = JxlSource(blend: BlendInfo, saveAsReference: int, name: string)

  /** The header of one frame, built in the encoder's order: the row's values,
      then a JPEG XL source's blend info and reference slot, then auto-crop's
      overrides (a baseline frame is saved to slot 1; a cropped frame is blended
      over slot 1). */
  function BuildHeader(row: InputFileData, tick: int, place: Placement, width: int, height: int,
                       alpha: bool, source: Option<JxlSource>, autoCrop: bool, acReset: bool): (h: FrameHeader)
    ensures h.duration == tick
    ensures h.saveAsReference ==
      if autoCrop && acReset then 1
      else if source.Some? then source.value.saveAsReference
      else ToUint32(row.isRefFrame)
    ensures autoCrop && place.needCrop && !acReset ==>
      h.blend.blendMode == BlendModes.BLEND && h.blend.source == 1
    ensures !(autoCrop && place.needCrop && !acReset) ==>
      if source.Some? then h.blend == source.value.blend
      else h.blend == BlendInfo(row.blendMode, ToUint32(row.frameReference), 0, false)
    ensures source.Some? ==> h.blend.alpha == source.value.blend.alpha && h.blend.clamp == source.value.blend.clamp
    ensures h.haveCrop == place.needCrop
    ensures place.needCrop ==> h.cropX0 == place.x && h.cropY0 == place.y && h.xsize == width && h.ysize == height
    ensures !place.needCrop ==> h.cropX0 == 0 && h.cropY0 == 0 && h.xsize == 0 && h.ysize == 0
  {
    var h0 := InitHeader.(duration := tick, saveAsReference := ToUint32(row.isRefFrame));
    var h1 := h0.(blend := h0.blend.(blendMode := row.blendMode));
    var h2 := if alpha then h1.(blend := h1.blend.(alpha := 0)) else h1;
    var h3 := h2.(blend := h2.blend.(source := ToUint32(row.frameReference)));
    var h4 := if place.needCrop
              then h3.(haveCrop := true, cropX0 := place.x, cropY0 := place.y, xsize := width, ysize := height)
              else h3;
    var h5 := if source.Some?
              then h4.(blend := source.value.blend, saveAsReference := source.value.saveAsReference)
              else h4;
    var h6 := if autoCrop && acReset then h5.(saveAsReference := 1) else h5;
    if autoCrop && place.needCrop && !acReset
    then h6.(blend := h6.blend.(blendMode := BlendModes.BLEND, source := 1))
    else h6
  }

  /** With auto-crop on, every frame either becomes the new baseline in slot 1 or
      is blended over slot 1 (when cropped), whatever the row or the source says. */
  lemma AutoCropFramesChainThroughSlotOne(row: InputFileData, tick: int, place: Placement, width: int, height: int,
                                          alpha: bool, source: Option<JxlSource>, acReset: bool)
    requires acReset || place.needCrop
    ensures var h := BuildHeader(row, tick, place, width, height, alpha, source, true, acReset);
      (acReset && h.saveAsReference == 1) || (h.blend.blendMode == BlendModes.BLEND && h.blend.source == 1)
  {
  }

  /** Without auto-crop, a JPEG XL source keeps its own blending and reference
      slot, and other sources take them from the row. */
  lemma SourceHeaderWinsWithoutAutoCrop(row: InputFileData, tick: int, place: Placement, width: int, height: int,
                                        alpha: bool, source: Option<JxlSource>, acReset: bool)
    ensures var h := BuildHeader(row, tick, place, width, height, alpha, source, false, acReset);
      && (source.Some? ==> h.blend == source.value.blend && h.saveAsReference == source.value.saveAsReference)
      && (source.None? ==> h.blend.blendMode == row.blendMode && h.saveAsReference == ToUint32(row.isRefFrame))
  {
  }

  // ---------------------------------------------------------------------------
  // Frame name

  /** Longest frame name, in UTF-8 bytes, a frame header can carry. */
  const MAX_NAME_BYTES: nat := 1071

  /** Bytes of one character in UTF-8. */
  function Utf8Width(c: char): (n: nat)
    ensures 1 <= n <= 4
    ensures n == 1 <==> (c as int) < 0x80
  {
    if (c as int) < 0x80 then 1 else if (c as int) < 0x800 then 2 else if (c as int) < 0x1_0000 then 3 else 4
  }

  /** Length of a string in UTF-8 bytes (QString::toUtf8().size()). */
  function Utf8Len(s: string): (n: nat)
    ensures |s| <= n <= 4 * |s|
  {
    if s == [] then 0 else Utf8Width(s[0]) + Utf8Len(s[1..])
  }

  predicate IsAscii(s: string) {
    forall k :: 0 <= k < |s| ==> (s[k] as int) < 0x80
  }

  lemma {:induction false} Utf8LenConcat(a: string, b: string)
    ensures Utf8Len(a + b) == Utf8Len(a) + Utf8Len(b)
  {
    if a != [] {
      assert (a + b)[1..] == a[1..] + b;
      Utf8LenConcat(a[1..], b);
    } else {
      assert a + b == b;
    }
  }

  lemma {:induction false} AsciiUtf8Len(s: string)
    requires IsAscii(s)
    ensures Utf8Len(s) == |s|
  {
    if s != [] {
      AsciiUtf8Len(s[1..]);
    }
  }

  /** The name of a frame: the row's name, joined to a JPEG XL source's non-empty
      frame name (with " - " between when both are non-empty), and cut to 1071
      characters when the joined name is over 1071 UTF-8 bytes. */
  function FrameName(rowName: string, sourceName: Option<string>): (name: string)
    ensures sourceName.None? || sourceName.value == "" ==> name == rowName
    ensures sourceName.Some? && sourceName.value != "" ==>
      var joined := if rowName == "" then sourceName.value else rowName + " - " + sourceName.value;
      && name <= joined
      && (Utf8Len(joined) <= MAX_NAME_BYTES ==> name == joined)
      && (Utf8Len(joined) > MAX_NAME_BYTES ==> |name| == if |joined| > MAX_NAME_BYTES then MAX_NAME_BYTES else |joined|)
  {
    if sourceName.Some? && sourceName.value != "" then
      var joined := if rowName == "" then sourceName.value else rowName + " - " + sourceName.value;
      if Utf8Len(joined) > MAX_NAME_BYTES && |joined| > MAX_NAME_BYTES then joined[..MAX_NAME_BYTES] else joined
    else
      rowName
  }

  /** The characters before the first U+0000: what a C string holding `s`
      says. */
  function CString(s: string): (r: string)
    ensures r <= s && '\0' !in r
    ensures |r| < |s| ==> s[|r|] == '\0'
  {
    if s == [] || s[0] == '\0' then [] else [s[0]] + CString(s[1..])
  }

  /** A string without U+0000 is its own C string. */
  lemma CStringWithoutNul(s: string)
    requires '\0' !in s
    ensures CString(s) == s
  {
  }

  /** A string without U+0000, terminated by one, reads back as itself. */
  lemma {:induction false} CStringOfTerminated(s: string)
    requires '\0' !in s
    ensures CString(s + ['\0']) == s
  {
    if s != [] {
      assert s[0] in s;
      assert (s + ['\0'])[1..] == s[1..] + ['\0'];
      CStringOfTerminated(s[1..]);
    }
  }

  /** The name handed to libjxl: only a non-empty name of at most 1071 UTF-8
      bytes (a U+0000 counting as one) is set, and libjxl takes it as a C
      string, up to its first U+0000; any other frame goes unnamed. */
  function NameToSet(name: string): (r: Option<string>)
    ensures r.Some? <==> name != "" && Utf8Len(name) <= MAX_NAME_BYTES
    ensures r.Some? ==> r.value <= name && '\0' !in r.value
    ensures r.Some? && |r.value| < |name| ==> name[|r.value|] == '\0'
    ensures r.Some? && '\0' !in name ==> r.value == name
  {
    if name != "" && Utf8Len(name) <= MAX_NAME_BYTES then
      var r := CString(name);
      assert '\0' !in name ==> r == name by {
        if '\0' !in name {
          CStringWithoutNul(name);
        }
      }
      Some(r)
    else None
  }

  /** An ASCII row name joined to a non-empty ASCII source name is always set on
      the frame: cutting it to 1071 characters brings it within 1071 bytes. */
  lemma AsciiSourceNameIsAlwaysSet(rowName: string, sourceName: string)
    requires IsAscii(rowName) && IsAscii(sourceName) && sourceName != ""
    ensures NameToSet(FrameName(rowName, Some(sourceName))).Some?
  {
    var joined := if rowName == "" then sourceName else rowName + " - " + sourceName;
    assert IsAscii(joined);
    var name := FrameName(rowName, Some(sourceName));
    assert name <= joined;
    assert IsAscii(name) by {
      forall k | 0 <= k < |name| ensures (name[k] as int) < 0x80 {
        assert name[k] == joined[k];
      }
    }
    AsciiUtf8Len(joined);
    AsciiUtf8Len(name);
    assert |sourceName| > 0;
  }

  /** A row name over 1071 UTF-8 bytes on a frame without a source name is not
      cut: the frame goes unnamed. */
  lemma LongRowNameIsDropped(rowName: string, sourceName: Option<string>)
    requires sourceName.None? || sourceName.value == ""
    requires Utf8Len(rowName) > MAX_NAME_BYTES
    ensures NameToSet(FrameName(rowName, sourceName)).None?
  {
  }

  /** A cut name can still be over the limit when it holds multi-byte
      characters, and is then dropped: 1072 two-byte characters become 1071 of
      them, 2142 bytes. */
  lemma CutNameCanStillBeDropped()
    ensures var s := seq(1072, _ => 'é');
      NameToSet(FrameName("", Some(s))).None?
  {
    var s := seq(1072, _ => 'é');
    var name := FrameName("", Some(s));
    assert Utf8Len(s) > MAX_NAME_BYTES by { assert Utf8Len(s) >= |s|; }
    assert name == s[..MAX_NAME_BYTES];
    assert Utf8Len(name) == 2 * |name| by { TwoByteUtf8Len(name); }
  }

  lemma {:induction false} TwoByteUtf8Len(s: string)
    requires forall k :: 0 <= k < |s| ==> s[k] == 'é'
    ensures Utf8Len(s) == 2 * |s|
  {
    if s != [] {
      TwoByteUtf8Len(s[1..]);
    }
  }
}
