/** The encoder object: for every row of the frame list it reads the images the
    frame source yields, optionally auto-crops each one against a baseline frame,
    places it on the canvas, times it, names it and hands it to libjxl, and it
    stops when a frame cannot be read or when the interface asks it to abort. */
module Encoder {
  import opened Types
  import AutoCrop
  import FrameHeaders
  import BlendModes
  import OutputSink
  import Decoder

  // ---------------------------------------------------------------------------
  // Inputs of a run

  /** The encode parameters this model uses: the output file, the sample
      encoding, alpha, animation and its tick rate (numerator / denominator ticks
      per second), and auto-crop with its fuzzy threshold. */
  datatype EncodeParams = EncodeParams(
    outputFileName: string,
    bitDepth: BitDepth,
    alpha: bool,
    animation: bool,
    tpsNumerator: int,
    tpsDenominator: int,
    autoCrop: bool,
    fuzz: real)

  /** The tick rate comes from spin boxes whose minimum is 1. */
  predicate ValidParams(p: EncodeParams) {
    p.tpsNumerator >= 1 && p.tpsDenominator >= 1
  }

  /** One image the frame source yields for an input, with what the source
      reports right after reading it: the image (None when reading failed), its
      rectangle, the delay before the next image, and for a JPEG XL source the
      frame's blend info, reference slot and name. */
  datatype SubFrame = SubFrame(
    picture: Option<AutoCrop.Image>,
    rect: Rect,
    delay: int,
    jxl: Option<FrameHeaders.JxlSource>)

  /** One input as the frame source presents it: whether it is animated, the
      image count it reports, and the images it yields while it can read. */
  datatype SourceInput = SourceInput(isAnim: bool, imageCount: int, subframes: seq<SubFrame>)

  /** A frame as handed to libjxl: its header, its pixels and the name set on it. */
  datatype EncodedFrame = EncodedFrame(header: FrameHeaders.FrameHeader, image: AutoCrop.Image, name: Option<string>)

  /** An abort request from the interface thread, taking effect once
      `afterFrames` frames of the run have been handed to libjxl. */
  datatype AbortRequest = AbortRequest(afterFrames: nat, completeFile: bool)

  /** Every image a source yields is a well-formed grid. */
  predicate WellFormedSources(sources: seq<SourceInput>) {
    forall i, k :: 0 <= i < |sources| && 0 <= k < |sources[i].subframes| && sources[i].subframes[k].picture.Some? ==>
      sources[i].subframes[k].picture.value.WellFormed()
  }

  /** Every image of every source could be read. */
  predicate AllPicturesPresent(sources: seq<SourceInput>) {
    forall i, k :: 0 <= i < |sources| && 0 <= k < |sources[i].subframes| ==> sources[i].subframes[k].picture.Some?
  }

  // ---------------------------------------------------------------------------
  // The frame source shared by all rows

  /** How the frame source reads a file, by its lower-cased suffix: through
      libjxl ("jxl"), once ("tif", "tiff"), or through Qt's image reader. */
  datatype FileKind = JxlFile | OneShotFile | OtherFile

  function KindOf(name: string): (kind: FileKind)
    ensures kind == JxlFile <==> Decoder.Lower(Decoder.Suffix(name)) == "jxl"
    ensures kind == OneShotFile <==> Decoder.Lower(Decoder.Suffix(name)) in Decoder.ONE_SHOT_SUFFIXES
  {
    var suffix := Decoder.Lower(Decoder.Suffix(name));
    if suffix == "jxl" then JxlFile
    else if suffix in Decoder.ONE_SHOT_SUFFIXES then OneShotFile
    else OtherFile
  }

  function Kinds(rows: seq<InputFileData>): (kinds: seq<FileKind>)
    ensures |kinds| == |rows| && forall i :: 0 <= i < |rows| ==> kinds[i] == KindOf(rows[i].filename)
  {
    seq(|rows|, i requires 0 <= i < |rows| => KindOf(rows[i].filename))
  }

  /** The one-shot flag after a file of kind `kind` was read: opening a JPEG XL
      file clears it, and reading an image from a TIFF sets it. */
  function FlagAfter(kind: FileKind, src: SourceInput, oneShot: bool): bool {
    if kind == JxlFile then false
    else oneShot || (kind == OneShotFile && src.subframes != [])
  }

  /** The inputs as a run sees them, given the kind of each row's file and what
      it would yield read on its own (`own`). One frame source serves every row,
      and its one-shot flag (`oneShot`) is cleared only when a JPEG XL file is
      opened. Reading from a TIFF sets the flag, so a TIFF yields at most its
      first image, and while the flag is set any other input yields no image
      at all. */
  function SharedSource(kinds: seq<FileKind>, own: seq<SourceInput>, oneShot: bool): (r: seq<SourceInput>)
    requires |kinds| == |own|
    ensures |r| == |own|
    decreases |own|
  {
    if own == [] then []
    else
      var src := own[0];
      var first :=
        if kinds[0] == JxlFile then src
        else if oneShot then src.(subframes := [])
        else if kinds[0] == OneShotFile && src.subframes != [] then src.(subframes := src.subframes[..1])
        else src;
      [first] + SharedSource(kinds[1..], own[1..], FlagAfter(kinds[0], src, oneShot))
  }

  /** Input `j` past the first is what the rest of the rows yield from the
      flag the first row leaves. */
  lemma SharedSourceTail(kinds: seq<FileKind>, own: seq<SourceInput>, oneShot: bool, j: nat)
    requires |kinds| == |own| && 1 <= j < |own|
    ensures SharedSource(kinds, own, oneShot)[j]
         == SharedSource(kinds[1..], own[1..], FlagAfter(kinds[0], own[0], oneShot))[j - 1]
  {
  }

  /** The shared source keeps every input's kind and image count, yields a
      prefix of the input's own images, and all of them for a JPEG XL file. */
  lemma {:induction false} SharedSourceShape(kinds: seq<FileKind>, own: seq<SourceInput>, oneShot: bool)
    requires |kinds| == |own|
    decreases |own|
    ensures var r := SharedSource(kinds, own, oneShot);
      forall i :: 0 <= i < |own| ==>
        && r[i].isAnim == own[i].isAnim && r[i].imageCount == own[i].imageCount
        && r[i].subframes <= own[i].subframes
        && (kinds[i] == JxlFile ==> r[i] == own[i])
  {
    if own != [] {
      SharedSourceShape(kinds[1..], own[1..], FlagAfter(kinds[0], own[0], oneShot));
      forall i | 1 <= i < |own|
        ensures own[i] == own[1..][i - 1] && kinds[i] == kinds[1..][i - 1]
      {
      }
      forall i | 1 <= i < |own| {
        SharedSourceTail(kinds, own, oneShot, i);
      }
    }
  }

  /** The shared source yields well-formed images when the files do, and
      readable ones when every image of every file can be read. */
  lemma SharedSourceKeeps(kinds: seq<FileKind>, own: seq<SourceInput>, oneShot: bool)
    requires |kinds| == |own|
    ensures WellFormedSources(own) ==> WellFormedSources(SharedSource(kinds, own, oneShot))
    ensures AllPicturesPresent(own) ==> AllPicturesPresent(SharedSource(kinds, own, oneShot))
  {
    SharedSourceShape(kinds, own, oneShot);
    var r := SharedSource(kinds, own, oneShot);
    forall i, k | 0 <= i < |r| && 0 <= k < |r[i].subframes|
      ensures r[i].subframes[k] == own[i].subframes[k]
    {
    }
  }

  /** While the one-shot flag is set and no JPEG XL file comes, the inputs
      yield no images. */
  lemma {:induction false} FlaggedSourceYieldsNothing(kinds: seq<FileKind>, own: seq<SourceInput>, j: nat)
    requires |kinds| == |own| && j < |own|
    requires forall m :: 0 <= m <= j ==> kinds[m] != JxlFile
    ensures SharedSource(kinds, own, true)[j].subframes == []
  {
    if j > 0 {
      FlaggedSourceYieldsNothing(kinds[1..], own[1..], j - 1);
      SharedSourceTail(kinds, own, true, j);
    }
  }

  /** Once a TIFF input with an image was read, every later input up to the
      next JPEG XL file yields no images, whatever it holds: the flag that
      stops a TIFF after its first image is not cleared for other formats. */
  lemma {:induction false} OneShotHidesLaterInputs(kinds: seq<FileKind>, own: seq<SourceInput>, oneShot: bool,
                                                   i: nat, j: nat)
    requires |kinds| == |own| && i < j < |own|
    requires kinds[i] == OneShotFile && own[i].subframes != []
    requires forall m :: i < m <= j ==> kinds[m] != JxlFile
    decreases i
    ensures SharedSource(kinds, own, oneShot)[j].subframes == []
  {
    SharedSourceTail(kinds, own, oneShot, j);
    if i == 0 {
      FlaggedSourceYieldsNothing(kinds[1..], own[1..], j - 1);
    } else {
      OneShotHidesLaterInputs(kinds[1..], own[1..], FlagAfter(kinds[0], own[0], oneShot), i - 1, j - 1);
    }
  }

  /** A run over a TIFF file followed by a PNG file, each with readable images
      and no abort, hands over the TIFF's first image only and succeeds: the
      PNG's images are skipped and libjxl's input is never closed. */
  lemma TiffThenPngEncodesOneFrame(tif: InputFileData, png: InputFileData, a: SourceInput, b: SourceInput,
                                   base1: string, base2: string)
    requires tif.filename == base1 + ".tif" && png.filename == base2 + ".png"
    requires a.subframes != [] && b.subframes != [] && AllPicturesPresent([a, b])
    ensures var r := InputsFrom(SharedSource(Kinds([tif, png]), [a, b], false), 0, 0, false, true, None);
      && !r.stopped && r.count == 1 < TotalFrames([a, b]) && !r.closed
  {
    var own := [a, b];
    assert ".tif"[1..] == "tif" && ".png"[1..] == "png";
    Decoder.LoweredSuffix(base1, ".tif");
    Decoder.LoweredSuffix(base2, ".png");
    Decoder.LowerKeepsLowerCase("tif");
    Decoder.LowerKeepsLowerCase("png");
    var kinds := Kinds([tif, png]);
    assert kinds == [OneShotFile, OtherFile];
    var shared := SharedSource(kinds, own, false);
    assert shared == [a.(subframes := a.subframes[..1]), b.(subframes := [])] by {
      assert kinds[1..] == [OtherFile] && own[1..] == [b];
      assert SharedSource([OtherFile], [b], true) == [b.(subframes := [])] + SharedSource([], [], true);
    }
    SharedSourceKeeps(kinds, own, false);
    EncodesEverythingWithoutAbort(shared, 0, 0);
    assert shared[..0] == [];
    assert shared[..1] == [shared[0]];
    assert own[..1] == [a];
  }

  // ---------------------------------------------------------------------------
  // One frame

  /** Frames of at least this many pixels are never auto-cropped. */
  const AUTO_CROP_PIXEL_LIMIT: int := 50_000_000

  predicate Small(img: AutoCrop.Image) {
    img.width * img.height < AUTO_CROP_PIXEL_LIMIT
  }

  /** Auto-crop takes a new baseline at the first image of an animated input, and
      at the first input when it is not animated. */
  predicate StartsBaseline(isAnim: bool, i: nat, k: nat) {
    (isAnim && k == 0) || (!isAnim && i == 0)
  }

  /** The baseline can be compared with the frame: same size and byte size. */
  predicate Comparable(cur: AutoCrop.Image, prev: Option<AutoCrop.Image>) {
    prev.Some? && AutoCrop.SameShape(cur, prev.value) && prev.value.SizeInBytes() == cur.SizeInBytes()
  }

  /** The frame's rectangle: the one the source reports, or the image's own when
      that one is not valid. */
  function StartRect(img: AutoCrop.Image, rect: Rect): (r: Rect)
    ensures rect.IsValid() ==> r == rect
    ensures !rect.IsValid() ==> r == img.FullRect()
  {
    if rect.IsValid() then rect else img.FullRect()
  }

  function SourceName(sub: SubFrame): Option<string> {
    if sub.jxl.Some? then Some(sub.jxl.value.name) else None
  }

  /** The duration of image `k` of `src`: more images follow it while k is not
      the last one. */
  function Tick(p: EncodeParams, row: InputFileData, src: SourceInput, k: nat): int
    requires ValidParams(p) && k < |src.subframes|
  {
    FrameHeaders.FrameTick(src.isAnim, src.imageCount, k + 1 < |src.subframes|, row.isPageEnd, row.frameDuration,
                           src.subframes[k].delay, p.animation, p.tpsNumerator, p.tpsDenominator)
  }

  /** The frame handed to libjxl for image `k` of input `i`, once auto-crop has
      produced `img` at `rect` with reset flag `acReset`. */
  function EncodeFrame(p: EncodeParams, rootW: int, rootH: int, row: InputFileData, src: SourceInput,
                       i: nat, k: nat, img: AutoCrop.Image, rect: Rect, acReset: bool): EncodedFrame
    requires ValidParams(p) && k < |src.subframes|
  {
    var sub := src.subframes[k];
    var place := FrameHeaders.PlaceFrame(i, k, img.width, img.height, rootW, rootH, row.frameXPos, row.frameYPos, rect, acReset);
    var header := FrameHeaders.BuildHeader(row, Tick(p, row, src, k), place, img.width, img.height, p.alpha, sub.jxl, p.autoCrop, acReset);
    EncodedFrame(header, img, FrameHeaders.NameToSet(FrameHeaders.FrameName(row.frameName, SourceName(sub))))
  }

  /** What the source promises for the frame of image `k` of input `i`: it was
      read; its duration is the image's tick and its name the joined, checked
      name; without auto-crop it is the image itself placed at its rectangle;
      with auto-crop it is either a new baseline saved to slot 1 or blended over
      slot 1, and the first image of an input that starts a baseline is encoded
      whole as a baseline. */
  ghost predicate FrameFits(p: EncodeParams, rootW: int, rootH: int, row: InputFileData, src: SourceInput,
                            i: nat, k: nat, f: EncodedFrame)
  {
    && ValidParams(p) && k < |src.subframes|
    && var sub := src.subframes[k];
    && sub.picture.Some?
    && f.header.duration == Tick(p, row, src, k)
    && f.name == FrameHeaders.NameToSet(FrameHeaders.FrameName(row.frameName, SourceName(sub)))
    && (!p.autoCrop ==>
          f == EncodeFrame(p, rootW, rootH, row, src, i, k, sub.picture.value, StartRect(sub.picture.value, sub.rect), true))
    && (p.autoCrop ==>
          f.header.saveAsReference == 1
          || (f.header.blend.blendMode == BlendModes.BLEND && f.header.blend.source == 1))
    && (p.autoCrop && StartsBaseline(src.isAnim, i, k) && Small(sub.picture.value) ==>
          f.image == sub.picture.value && f.header.saveAsReference == 1)
  }

  /** What the auto-crop step makes of image `cur` at rectangle `rect`, given
      the reset flag `acReset` and the baseline `prev` before it. Without
      auto-crop, or for an image of 50,000,000 pixels or more, nothing changes.
      An image that starts a baseline, or that cannot be compared with the
      baseline, becomes the new baseline. Otherwise the difference scan starts at
      the rectangle's bottom-right corner and finds `corners`: a crop covering the
      whole image makes it the new baseline; any other crop (the placeholder
      included) replaces the image and clears the reset flag, keeping the old
      baseline. */
  ghost predicate CropOutcome(p: EncodeParams, isAnim: bool, i: nat, k: nat, cur: AutoCrop.Image, rect: Rect,
                              acReset: bool, prev: Option<AutoCrop.Image>,
                              img: AutoCrop.Image, imgRect: Rect, reset: bool, baseline: Option<AutoCrop.Image>,
                              corners: AutoCrop.Corners)
  {
    && (!(p.autoCrop && Small(cur)) ==>
          img == cur && imgRect == rect && reset == acReset && baseline == prev)
    && (p.autoCrop && Small(cur) && (StartsBaseline(isAnim, i, k) || !Comparable(cur, prev)) ==>
          img == cur && imgRect == rect && reset && baseline == Some(cur))
    && (p.autoCrop && Small(cur) && !StartsBaseline(isAnim, i, k) && Comparable(cur, prev) ==>
          && AutoCrop.IsScanResult(cur, prev.value, p.fuzz, rect.Right(), rect.Bottom(), corners)
          && var crop := AutoCrop.CropRect(cur.width, cur.height, corners);
             if crop == cur.FullRect() then img == cur && imgRect == rect && reset && baseline == Some(cur)
             else (img, imgRect) == AutoCrop.CropFrame(cur, rect, crop) && !reset && baseline == prev)
  }

  /** The auto-crop step for one image, as CropOutcome describes it. */
  method AutoCropStep(p: EncodeParams, isAnim: bool, i: nat, k: nat, cur: AutoCrop.Image, rect: Rect,
                      acReset: bool, prev: Option<AutoCrop.Image>)
    returns (img: AutoCrop.Image, imgRect: Rect, reset: bool, baseline: Option<AutoCrop.Image>, corners: AutoCrop.Corners)
    requires cur.WellFormed()
    ensures img.WellFormed() && (baseline.Some? ==> baseline == prev || baseline == Some(cur))
    ensures CropOutcome(p, isAnim, i, k, cur, rect, acReset, prev, img, imgRect, reset, baseline, corners)
  {
    img, imgRect, reset, baseline, corners := cur, rect, acReset, prev, AutoCrop.Corners(0, 0, 0, 0);
    if !(p.autoCrop && Small(cur)) {
      return;
    }
    if StartsBaseline(isAnim, i, k) || !Comparable(cur, prev) {
      reset, baseline := true, Some(cur);
      return;
    }
    corners := AutoCrop.DiffBounds(cur, prev.value, p.fuzz, rect.Right(), rect.Bottom());
    var crop := AutoCrop.CropRect(cur.width, cur.height, corners);
    if crop == cur.FullRect() {
      reset, baseline := true, Some(cur);
    } else {
      if crop != AutoCrop.Placeholder {
        AutoCrop.CropRectIsNonEmpty(cur, prev.value, p.fuzz, rect.Right(), rect.Bottom(), corners);
      }
      var res := AutoCrop.CropFrame(cur, rect, crop);
      img, imgRect, reset := res.0, res.1, false;
    }
  }

  /** The frame for image `k` of input `i`: auto-crop, then placement, duration,
      header and name. The frame fits what the source promises, and the baseline
      stays a well-formed image. */
  method ProcessSubframe(p: EncodeParams, rootW: int, rootH: int, row: InputFileData, src: SourceInput,
                         i: nat, k: nat, acReset0: bool, prev0: Option<AutoCrop.Image>)
    returns (frame: EncodedFrame, acReset: bool, prev: Option<AutoCrop.Image>)
    requires ValidParams(p) && k < |src.subframes|
    requires src.subframes[k].picture.Some? && src.subframes[k].picture.value.WellFormed()
    requires prev0.Some? ==> prev0.value.WellFormed()
    requires !p.autoCrop ==> acReset0
    ensures FrameFits(p, rootW, rootH, row, src, i, k, frame)
    ensures var cur := src.subframes[k].picture.value;
      exists imgRect, corners ::
        && CropOutcome(p, src.isAnim, i, k, cur, StartRect(cur, src.subframes[k].rect), acReset0, prev0,
                       frame.image, imgRect, acReset, prev, corners)
        && frame == EncodeFrame(p, rootW, rootH, row, src, i, k, frame.image, imgRect, acReset)
    ensures prev.Some? ==> prev.value.WellFormed()
    ensures !p.autoCrop ==> acReset && prev == prev0
  {
    var sub := src.subframes[k];
    var cur := sub.picture.value;
    var rect := StartRect(cur, sub.rect);
    var img, imgRect, corners;
    img, imgRect, acReset, prev, corners := AutoCropStep(p, src.isAnim, i, k, cur, rect, acReset0, prev0);
    frame := EncodeFrame(p, rootW, rootH, row, src, i, k, img, imgRect, acReset);
    assert frame.image == img;
    assert CropOutcome(p, src.isAnim, i, k, cur, rect, acReset0, prev0, img, imgRect, acReset, prev, corners);
    var place := FrameHeaders.PlaceFrame(i, k, img.width, img.height, rootW, rootH, row.frameXPos, row.frameYPos, imgRect, acReset);
    if p.autoCrop {
      FrameHeaders.AutoCropFramesChainThroughSlotOne(row, Tick(p, row, src, k), place, img.width, img.height,
                                                     p.alpha, sub.jxl, acReset);
    }
  }

  // ---------------------------------------------------------------------------
  // The order frames are produced in

  /** The images of input `i`, as (input, image) pairs. */
  function Pairs(i: nat, n: nat): (r: seq<(nat, nat)>)
    ensures |r| == n && forall k :: 0 <= k < n ==> r[k] == (i, k)
  {
    seq(n, k requires 0 <= k < n => (i, k))
  }

  /** The images of all inputs, input by input. */
  function Origins(sources: seq<SourceInput>): (r: seq<(nat, nat)>)
    ensures |r| == TotalFrames(sources)
  {
    if sources == [] then []
    else Origins(sources[..|sources| - 1]) + Pairs(|sources| - 1, |sources[|sources| - 1].subframes|)
  }

  function TotalFrames(sources: seq<SourceInput>): nat {
    if sources == [] then 0
    else TotalFrames(sources[..|sources| - 1]) + |sources[|sources| - 1].subframes|
  }

  lemma OriginsSnoc(sources: seq<SourceInput>, i: nat)
    requires i < |sources|
    ensures Origins(sources[..i + 1]) == Origins(sources[..i]) + Pairs(i, |sources[i].subframes|)
    ensures TotalFrames(sources[..i + 1]) == TotalFrames(sources[..i]) + |sources[i].subframes|
  {
    assert sources[..i + 1][..i] == sources[..i];
  }

  /** The images of the first inputs come first. */
  lemma {:induction false} OriginsPrefix(sources: seq<SourceInput>, i: nat)
    requires i <= |sources|
    decreases |sources| - i
    ensures Origins(sources[..i]) <= Origins(sources)
  {
    if i < |sources| {
      OriginsSnoc(sources, i);
      OriginsPrefix(sources, i + 1);
      if i + 1 == |sources| {
        assert sources[..i + 1] == sources;
      }
    } else {
      assert sources[..i] == sources;
    }
  }

  /** Frame `j` fits image `origins[j]`. */
  ghost predicate FitsAt(p: EncodeParams, rootW: int, rootH: int, rows: seq<InputFileData>, sources: seq<SourceInput>,
                         o: (nat, nat), f: EncodedFrame)
  {
    o.0 < |sources| && o.0 < |rows| && FrameFits(p, rootW, rootH, rows[o.0], sources[o.0], o.0, o.1, f)
  }

  ghost predicate AllFit(p: EncodeParams, rootW: int, rootH: int, rows: seq<InputFileData>, sources: seq<SourceInput>,
                         origins: seq<(nat, nat)>, fs: seq<EncodedFrame>)
  {
    |fs| == |origins| &&
    forall j {:trigger FitsAt(p, rootW, rootH, rows, sources, origins[j], fs[j])} ::
      0 <= j < |fs| ==> FitsAt(p, rootW, rootH, rows, sources, origins[j], fs[j])
  }

  // ---------------------------------------------------------------------------
  // Where a run stops

  /** How a run or one input's loop ends: whether it stopped early, how many
      frames it handed to libjxl, and whether it closed the encoder's input. */
  datatype Progress = Progress(stopped: bool, count: nat, closed: bool)

  /** The abort flag the encoder sees once `n` frames were handed over. */
  predicate AbortSeen(startAbort: bool, req: Option<AbortRequest>, n: nat) {
    startAbort || (req.Some? && req.value.afterFrames <= n)
  }

  /** The complete-file flag the encoder sees once `n` frames were handed over. */
  predicate CompleteSeen(startComplete: bool, req: Option<AbortRequest>, n: nat) {
    if req.Some? && req.value.afterFrames <= n then req.value.completeFile else startComplete
  }

  /** The image loop of one input from image `k`, with `n` frames already handed
      over: a failed read stops the run; after each frame a complete-file abort
      stops it (closing the input); the last image of the last input closes the
      input. */
  function SubframesFrom(src: SourceInput, k: nat, n: nat, lastInput: bool,
                         startAbort: bool, startComplete: bool, req: Option<AbortRequest>): Progress
    requires k <= |src.subframes|
    decreases |src.subframes| - k
  {
    if k == |src.subframes| then Progress(false, n, false)
    else if src.subframes[k].picture.None? then Progress(true, n, false)
    else if AbortSeen(startAbort, req, n + 1) && CompleteSeen(startComplete, req, n + 1) then Progress(true, n + 1, true)
    else if k + 1 == |src.subframes| then Progress(false, n + 1, lastInput)
    else SubframesFrom(src, k + 1, n + 1, lastInput, startAbort, startComplete, req)
  }

  /** The input loop from input `i`, with `n` frames already handed over: an
      abort that does not complete the file stops the run before an input. */
  function InputsFrom(sources: seq<SourceInput>, i: nat, n: nat,
                      startAbort: bool, startComplete: bool, req: Option<AbortRequest>): Progress
    requires i <= |sources|
    decreases |sources| - i
  {
    if i == |sources| then Progress(false, n, false)
    else if AbortSeen(startAbort, req, n) && !CompleteSeen(startComplete, req, n) then Progress(true, n, false)
    else
      var p := SubframesFrom(sources[i], 0, n, i + 1 == |sources|, startAbort, startComplete, req);
      if p.stopped then p
      else
        var q := InputsFrom(sources, i + 1, p.count, startAbort, startComplete, req);
        q.(closed := q.closed || p.closed)
  }

  /** One step of SubframesFrom after image `k` was read and handed over. */
  lemma SubframesAfterFrame(src: SourceInput, k: nat, n: nat, lastInput: bool,
                            sa: bool, sc: bool, req: Option<AbortRequest>)
    requires k < |src.subframes| && src.subframes[k].picture.Some?
    ensures var stop := AbortSeen(sa, req, n + 1) && CompleteSeen(sc, req, n + 1);
      SubframesFrom(src, k, n, lastInput, sa, sc, req) ==
        if stop || k + 1 == |src.subframes| then Progress(stop, n + 1, stop || lastInput)
        else SubframesFrom(src, k + 1, n + 1, lastInput, sa, sc, req)
  {
  }

  /** An input's image loop hands over at most its images. */
  lemma {:induction false} SubframesCount(src: SourceInput, k: nat, n: nat, lastInput: bool,
                                          sa: bool, sc: bool, req: Option<AbortRequest>)
    requires k <= |src.subframes|
    decreases |src.subframes| - k
    ensures var r := SubframesFrom(src, k, n, lastInput, sa, sc, req);
      n <= r.count <= n + |src.subframes| - k && (!r.stopped ==> r.count == n + |src.subframes| - k)
  {
    if k < |src.subframes| && src.subframes[k].picture.Some?
       && !(AbortSeen(sa, req, n + 1) && CompleteSeen(sc, req, n + 1)) && k + 1 < |src.subframes| {
      SubframesCount(src, k + 1, n + 1, lastInput, sa, sc, req);
    }
  }

  /** With no abort and every image readable, an input hands over all its images
      and closes the input iff it is the last one and has images. */
  lemma {:induction false} SubframesWithoutAbort(src: SourceInput, k: nat, n: nat, lastInput: bool)
    requires k < |src.subframes|
    requires forall m :: k <= m < |src.subframes| ==> src.subframes[m].picture.Some?
    decreases |src.subframes| - k
    ensures SubframesFrom(src, k, n, lastInput, false, true, None) == Progress(false, n + |src.subframes| - k, lastInput)
  {
    if k + 1 < |src.subframes| {
      SubframesWithoutAbort(src, k + 1, n + 1, lastInput);
    }
  }

  /** With no abort and every image readable, a run hands every image to libjxl
      and succeeds; it closes the input iff the last input has images. */
  lemma {:induction false} EncodesEverythingWithoutAbort(sources: seq<SourceInput>, i: nat, n: nat)
    requires i <= |sources| && AllPicturesPresent(sources)
    decreases |sources| - i
    ensures var r := InputsFrom(sources, i, n, false, true, None);
      && !r.stopped
      && r.count == n + TotalFrames(sources) - TotalFrames(sources[..i])
      && r.closed == (i < |sources| && |sources[|sources| - 1].subframes| > 0)
  {
    if i == |sources| {
      assert sources[..i] == sources;
    } else {
      var src := sources[i];
      var last := i + 1 == |sources|;
      var p := SubframesFrom(src, 0, n, last, false, true, None);
      if |src.subframes| > 0 {
        SubframesWithoutAbort(src, 0, n, last);
      }
      assert p == Progress(false, n + |src.subframes|, last && |src.subframes| > 0);
      EncodesEverythingWithoutAbort(sources, i + 1, p.count);
      OriginsSnoc(sources, i);
      if last {
        assert sources[..i + 1] == sources;
      }
    }
  }

  /** A complete-file abort arriving after `m` frames, with every image
      readable, stops an input's loop right after frame `m` if it falls in the
      input, closing the input. */
  lemma {:induction false} SubframesCompleteAbort(src: SourceInput, k: nat, n: nat, lastInput: bool, m: nat)
    requires k <= |src.subframes| && n < m
    requires forall j :: k <= j < |src.subframes| ==> src.subframes[j].picture.Some?
    decreases |src.subframes| - k
    ensures var r := SubframesFrom(src, k, n, lastInput, false, true, Some(AbortRequest(m, true)));
      if m <= n + |src.subframes| - k then r == Progress(true, m, true)
      else !r.stopped && r.count == n + |src.subframes| - k && r.closed == (lastInput && k < |src.subframes|)
  {
    if k < |src.subframes| && n + 1 < m && k + 1 < |src.subframes| {
      SubframesCompleteAbort(src, k + 1, n + 1, lastInput, m);
    }
  }

  /** A complete-file abort arriving once `m` frames (at least one, at most all)
      were handed over, with every image readable: the run stops with exactly `m`
      frames and closes the encoder's input, so the file holds them all. */
  lemma {:induction false} CompleteAbortKeepsRequestedFrames(sources: seq<SourceInput>, i: nat, n: nat, m: nat)
    requires i <= |sources| && AllPicturesPresent(sources)
    requires n == TotalFrames(sources[..i]) && n < m <= TotalFrames(sources)
    decreases |sources| - i
    ensures InputsFrom(sources, i, n, false, true, Some(AbortRequest(m, true))) == Progress(true, m, true)
  {
    assert sources[..|sources|] == sources;
    if i == |sources| {
      assert false;
    } else {
      var src := sources[i];
      var req := Some(AbortRequest(m, true));
      OriginsSnoc(sources, i);
      SubframesCompleteAbort(src, 0, n, i + 1 == |sources|, m);
      var p := SubframesFrom(src, 0, n, i + 1 == |sources|, false, true, req);
      if !p.stopped {
        if i + 1 == |sources| {
          assert false;
        }
        CompleteAbortKeepsRequestedFrames(sources, i + 1, p.count, m);
      }
    }
  }

  /** An abort that does not complete the file is only seen between inputs: when
      it arrives after the last input has begun, every image is still encoded and
      the run succeeds. */
  lemma {:induction false} DiscardAbortDuringLastInputIsIgnored(sources: seq<SourceInput>, i: nat, n: nat, m: nat)
    requires i < |sources| && AllPicturesPresent(sources)
    requires n == TotalFrames(sources[..i]) && TotalFrames(sources[..|sources| - 1]) < m
    decreases |sources| - i
    ensures var r := InputsFrom(sources, i, n, false, true, Some(AbortRequest(m, false)));
      !r.stopped && r.count == TotalFrames(sources)
  {
    var src := sources[i];
    var req := Some(AbortRequest(m, false));
    var last := i + 1 == |sources|;
    OriginsSnoc(sources, i);
    TotalFramesMonotone(sources, i, |sources| - 1);
    DiscardNeverStopsAnInput(src, 0, n, last, m);
    SubframesCount(src, 0, n, last, false, true, req);
    var p := SubframesFrom(src, 0, n, last, false, true, req);
    if last {
      assert sources[..i + 1] == sources;
    } else {
      DiscardAbortDuringLastInputIsIgnored(sources, i + 1, p.count, m);
    }
  }

  /** Within an input's loop only a complete-file abort or a failed read stops it. */
  lemma {:induction false} DiscardNeverStopsAnInput(src: SourceInput, k: nat, n: nat, lastInput: bool, m: nat)
    requires k <= |src.subframes|
    requires forall j :: k <= j < |src.subframes| ==> src.subframes[j].picture.Some?
    decreases |src.subframes| - k
    ensures !SubframesFrom(src, k, n, lastInput, false, true, Some(AbortRequest(m, false))).stopped
  {
    if k + 1 < |src.subframes| {
      DiscardNeverStopsAnInput(src, k + 1, n + 1, lastInput, m);
    }
  }

  lemma {:induction false} TotalFramesMonotone(sources: seq<SourceInput>, i: nat, j: nat)
    requires i <= j <= |sources|
    decreases j - i
    ensures TotalFrames(sources[..i]) <= TotalFrames(sources[..j])
  {
    if i < j {
      OriginsSnoc(sources, j - 1);
      TotalFramesMonotone(sources, i, j - 1);
    }
  }

  /** An abort already requested without completing the file stops the run
      before its first input, with no frame handed over. */
  lemma DiscardAbortBeforeStartEncodesNothing(sources: seq<SourceInput>)
    requires |sources| > 0
    ensures InputsFrom(sources, 0, 0, true, false, None) == Progress(true, 0, false)
  {
  }

  /** An input that is not the last one closes the encoder's input only when
      it stops the run. */
  lemma {:induction false} OnlyLastInputClosesUnlessStopped(src: SourceInput, k: nat, n: nat,
                                                           sa: bool, sc: bool, req: Option<AbortRequest>)
    requires k <= |src.subframes|
    decreases |src.subframes| - k
    ensures var r := SubframesFrom(src, k, n, false, sa, sc, req); r.closed ==> r.stopped
  {
    if k < |src.subframes| && src.subframes[k].picture.Some?
       && !(AbortSeen(sa, req, n + 1) && CompleteSeen(sc, req, n + 1)) && k + 1 < |src.subframes| {
      OnlyLastInputClosesUnlessStopped(src, k + 1, n + 1, sa, sc, req);
    }
  }

  /** The first frames of a run are those of the first inputs, then the first
      images of the next input. */
  lemma OriginsAt(sources: seq<SourceInput>, i: nat, k: nat)
    requires i < |sources| && k <= |sources[i].subframes|
    ensures TotalFrames(sources[..i]) + k <= |Origins(sources)|
    ensures Origins(sources)[..TotalFrames(sources[..i]) + k] == Origins(sources[..i]) + Pairs(i, k)
  {
    OriginsSnoc(sources, i);
    OriginsPrefix(sources, i + 1);
    var whole := Origins(sources[..i + 1]);
    assert whole == Origins(sources)[..|whole|];
    assert Pairs(i, |sources[i].subframes|)[..k] == Pairs(i, k);
    assert whole[..TotalFrames(sources[..i]) + k] == Origins(sources[..i]) + Pairs(i, k);
  }

  lemma AllFitSnoc(p: EncodeParams, rootW: int, rootH: int, rows: seq<InputFileData>, sources: seq<SourceInput>,
                   origins: seq<(nat, nat)>, fs: seq<EncodedFrame>, o: (nat, nat), f: EncodedFrame)
    requires AllFit(p, rootW, rootH, rows, sources, origins, fs) && FitsAt(p, rootW, rootH, rows, sources, o, f)
    ensures AllFit(p, rootW, rootH, rows, sources, origins + [o], fs + [f])
  {
  }

  lemma AllFitConcat(p: EncodeParams, rootW: int, rootH: int, rows: seq<InputFileData>, sources: seq<SourceInput>,
                     o1: seq<(nat, nat)>, f1: seq<EncodedFrame>, o2: seq<(nat, nat)>, f2: seq<EncodedFrame>)
    requires AllFit(p, rootW, rootH, rows, sources, o1, f1) && AllFit(p, rootW, rootH, rows, sources, o2, f2)
    ensures AllFit(p, rootW, rootH, rows, sources, o1 + o2, f1 + f2)
  {
    forall j | 0 <= j < |f1 + f2|
      ensures FitsAt(p, rootW, rootH, rows, sources, (o1 + o2)[j], (f1 + f2)[j])
    {
      if j >= |f1| {
        assert (o1 + o2)[j] == o2[j - |f1|] && (f1 + f2)[j] == f2[j - |f1|];
      }
    }
  }

  // ---------------------------------------------------------------------------
  // The frame loops

  /** What the loops of a run carry from frame to frame: the number of frames
      handed to libjxl during the run, the auto-crop baseline and reset flag,
      and the abort flags as the encoder sees them. */
  datatype RunState = RunState(
    count: nat,
    prevFrame: Option<AutoCrop.Image>,
    acReset: bool,
    encodeAbort: bool,
    abortCompleteFile: bool)

  /** The loops may carry on: the parameters are valid, the baseline is a
      well-formed image, and without auto-crop the reset flag stays set. */
  predicate Carries(p: EncodeParams, st: RunState) {
    ValidParams(p) && (st.prevFrame.Some? ==> st.prevFrame.value.WellFormed()) && (!p.autoCrop ==> st.acReset)
  }

  /** The abort flags once the interface's request (if any) has arrived. */
  function Observe(st: RunState, req: Option<AbortRequest>): (r: RunState)
    ensures r.count == st.count && r.prevFrame == st.prevFrame && r.acReset == st.acReset
    ensures r.encodeAbort == (st.encodeAbort || (req.Some? && req.value.afterFrames <= st.count))
    ensures req.Some? && req.value.afterFrames <= st.count ==> r.abortCompleteFile == req.value.completeFile
    ensures !(req.Some? && req.value.afterFrames <= st.count) ==> r.abortCompleteFile == st.abortCompleteFile
  {
    if req.Some? && req.value.afterFrames <= st.count then
      st.(encodeAbort := true, abortCompleteFile := req.value.completeFile)
    else st
  }

  /** The flags seen so far are those the run started with, updated by the
      request once its frame count was reached. */
  predicate FlagsSeen(st: RunState, sa: bool, sc: bool, req: Option<AbortRequest>) {
    st.encodeAbort == AbortSeen(sa, req, st.count) && st.abortCompleteFile == CompleteSeen(sc, req, st.count)
  }

  /** One pass of the image loop for image `k` of input `i`, once it was read:
      the frame is built and handed over, and the abort request is observed. */
  method EncodeImage(p: EncodeParams, rootW: int, rootH: int, rows: seq<InputFileData>, sources: seq<SourceInput>,
                     i: nat, k: nat, req: Option<AbortRequest>, st0: RunState)
    returns (frame: EncodedFrame, st: RunState)
    requires i < |sources| && i < |rows| && k < |sources[i].subframes| && WellFormedSources(sources)
    requires sources[i].subframes[k].picture.Some? && Carries(p, st0)
    ensures FitsAt(p, rootW, rootH, rows, sources, (i, k), frame)
    ensures var sub := sources[i].subframes[k];
      exists imgRect, corners ::
        && CropOutcome(p, sources[i].isAnim, i, k, sub.picture.value, StartRect(sub.picture.value, sub.rect),
                       st0.acReset, st0.prevFrame, frame.image, imgRect, st.acReset, st.prevFrame, corners)
        && frame == EncodeFrame(p, rootW, rootH, rows[i], sources[i], i, k, frame.image, imgRect, st.acReset)
    ensures Carries(p, st) && st == Observe(st.(encodeAbort := st0.encodeAbort, abortCompleteFile := st0.abortCompleteFile), req)
    ensures st.count == st0.count + 1 && (!p.autoCrop ==> st.prevFrame == st0.prevFrame)
  {
    var acReset, prev;
    frame, acReset, prev := ProcessSubframe(p, rootW, rootH, rows[i], sources[i], i, k, st0.acReset, st0.prevFrame);
    st := Observe(st0.(count := st0.count + 1, acReset := acReset, prevFrame := prev), req);
  }

  /** What the image loop keeps about the frames of input `i` handed over
      so far: they fit the input's first images in order, the count includes
      them, and the state can carry on. */
  ghost predicate ImageFrames(p: EncodeParams, rootW: int, rootH: int, rows: seq<InputFileData>, sources: seq<SourceInput>,
                              i: nat, req: Option<AbortRequest>, sa: bool, sc: bool, st0: RunState, st: RunState,
                              fs: seq<EncodedFrame>)
  {
    && i < |sources| && i < |rows|
    && st.count == st0.count + |fs| && |fs| <= |sources[i].subframes|
    && AllFit(p, rootW, rootH, rows, sources, Pairs(i, |fs|), fs)
    && Carries(p, st) && FlagsSeen(st, sa, sc, req)
    && (!p.autoCrop ==> st.prevFrame == st0.prevFrame)
  }

  /** The image loop's invariant: the frames so far are kept, and the rest of
      the loop is what SubframesFrom says is left of it. */
  ghost predicate ImageLoop(p: EncodeParams, rootW: int, rootH: int, rows: seq<InputFileData>, sources: seq<SourceInput>,
                            i: nat, req: Option<AbortRequest>, sa: bool, sc: bool, st0: RunState, st: RunState,
                            fs: seq<EncodedFrame>)
  {
    && ImageFrames(p, rootW, rootH, rows, sources, i, req, sa, sc, st0, st, fs)
    && SubframesFrom(sources[i], 0, st0.count, i + 1 == |sources|, sa, sc, req)
       == SubframesFrom(sources[i], |fs|, st.count, i + 1 == |sources|, sa, sc, req)
  }

  /** One pass of the image loop keeps the frames, and the run then ends
      exactly when a complete-file abort was seen or the image was the last. */
  lemma ImageLoopStep(p: EncodeParams, rootW: int, rootH: int, rows: seq<InputFileData>, sources: seq<SourceInput>,
                      i: nat, req: Option<AbortRequest>, sa: bool, sc: bool, st0: RunState, st: RunState,
                      fs: seq<EncodedFrame>, frame: EncodedFrame, st1: RunState)
    requires ImageLoop(p, rootW, rootH, rows, sources, i, req, sa, sc, st0, st, fs)
    requires |fs| < |sources[i].subframes| && sources[i].subframes[|fs|].picture.Some?
    requires FitsAt(p, rootW, rootH, rows, sources, (i, |fs|), frame)
    requires Carries(p, st1) && st1 == Observe(st1.(encodeAbort := st.encodeAbort, abortCompleteFile := st.abortCompleteFile), req)
    requires st1.count == st.count + 1 && (!p.autoCrop ==> st1.prevFrame == st.prevFrame)
    ensures ImageFrames(p, rootW, rootH, rows, sources, i, req, sa, sc, st0, st1, fs + [frame])
    ensures var stop := st1.encodeAbort && st1.abortCompleteFile;
      SubframesFrom(sources[i], 0, st0.count, i + 1 == |sources|, sa, sc, req) ==
        if stop || |fs| + 1 == |sources[i].subframes| then Progress(stop, st1.count, stop || i + 1 == |sources|)
        else SubframesFrom(sources[i], |fs| + 1, st1.count, i + 1 == |sources|, sa, sc, req)
  {
    var k := |fs|;
    AllFitSnoc(p, rootW, rootH, rows, sources, Pairs(i, k), fs, (i, k), frame);
    assert Pairs(i, k + 1) == Pairs(i, k) + [(i, k)];
    SubframesAfterFrame(sources[i], k, st.count, i + 1 == |sources|, sa, sc, req);
  }

  /** The image loop of input `i` (the `while (reader.canRead())` loop),
      entered with `st0.count` frames of the run handed over. It follows
      SubframesFrom step by step: each image read becomes a frame that fits it,
      the abort request is observed after every frame, a failed read or a
      complete-file abort ends the run, and the last image of the last input
      closes the encoder's input. `fs` are the frames of this input. */
  method EncodeInput(p: EncodeParams, rootW: int, rootH: int, rows: seq<InputFileData>, sources: seq<SourceInput>,
                     i: nat, req: Option<AbortRequest>, ghost sa: bool, ghost sc: bool, st0: RunState)
    returns (r: Progress, st: RunState, fs: seq<EncodedFrame>)
    requires i < |sources| && i < |rows| && WellFormedSources(sources)
    requires Carries(p, st0) && FlagsSeen(st0, sa, sc, req)
    ensures r == SubframesFrom(sources[i], 0, st0.count, i + 1 == |sources|, sa, sc, req)
    ensures r.count == st.count == st0.count + |fs| && |fs| <= |sources[i].subframes|
    ensures AllFit(p, rootW, rootH, rows, sources, Pairs(i, |fs|), fs)
    ensures Carries(p, st) && FlagsSeen(st, sa, sc, req)
    ensures !p.autoCrop ==> st.prevFrame == st0.prevFrame
  {
    var src := sources[i];
    var last := i + 1 == |sources|;
    st, fs := st0, [];
    while |fs| < |src.subframes|
      invariant ImageLoop(p, rootW, rootH, rows, sources, i, req, sa, sc, st0, st, fs)
    {
      var k := |fs|;
      if src.subframes[k].picture.None? {
        return Progress(true, st.count, false), st, fs;
      }
      var frame, st1 := EncodeImage(p, rootW, rootH, rows, sources, i, k, req, st);
      ImageLoopStep(p, rootW, rootH, rows, sources, i, req, sa, sc, st0, st, fs, frame, st1);
      st, fs := st1, fs + [frame];
      var abort := st.encodeAbort && st.abortCompleteFile;
      if abort || k + 1 == |src.subframes| {
        return Progress(abort, st.count, abort || last), st, fs;
      }
    }
    r := Progress(false, st.count, false);
  }

  /** The input loop's invariant: the frames handed over are those of the
      first `i` inputs, in order, and the rest of the run is what InputsFrom
      says is left of it. */
  ghost predicate InputsLoop(p: EncodeParams, rootW: int, rootH: int, rows: seq<InputFileData>, sources: seq<SourceInput>,
                             req: Option<AbortRequest>, sa: bool, sc: bool, i: nat, st: RunState, frames: seq<EncodedFrame>)
  {
    && i <= |sources| && st.count == |frames| == TotalFrames(sources[..i])
    && InputsFrom(sources, 0, 0, sa, sc, req) == InputsFrom(sources, i, st.count, sa, sc, req)
    && AllFit(p, rootW, rootH, rows, sources, Origins(sources[..i]), frames)
    && Carries(p, st) && FlagsSeen(st, sa, sc, req)
  }

  /** Between inputs, the frames handed over fit the run's first images. */
  lemma InputsLoopPrefix(p: EncodeParams, rootW: int, rootH: int, rows: seq<InputFileData>, sources: seq<SourceInput>,
                         req: Option<AbortRequest>, sa: bool, sc: bool, i: nat, st: RunState, frames: seq<EncodedFrame>)
    requires InputsLoop(p, rootW, rootH, rows, sources, req, sa, sc, i, st, frames)
    ensures |frames| <= |Origins(sources)|
    ensures AllFit(p, rootW, rootH, rows, sources, Origins(sources)[..|frames|], frames)
  {
    if i < |sources| {
      OriginsAt(sources, i, 0);
      assert Pairs(i, 0) == [];
    } else {
      assert sources[..i] == sources;
    }
  }

  /** One pass of the input loop, after the input's image loop: the frames
      still fit the run's first images, and the run ends with the input's
      result when it stopped or the input was the last; otherwise the
      invariant holds for the next input. */
  lemma InputsLoopStep(p: EncodeParams, rootW: int, rootH: int, rows: seq<InputFileData>, sources: seq<SourceInput>,
                       req: Option<AbortRequest>, sa: bool, sc: bool, i: nat, st: RunState, frames: seq<EncodedFrame>,
                       r: Progress, st1: RunState, fs: seq<EncodedFrame>)
    requires InputsLoop(p, rootW, rootH, rows, sources, req, sa, sc, i, st, frames) && i < |sources|
    requires !(st.encodeAbort && !st.abortCompleteFile)
    requires r == SubframesFrom(sources[i], 0, st.count, i + 1 == |sources|, sa, sc, req)
    requires r.count == st1.count == st.count + |fs| && |fs| <= |sources[i].subframes|
    requires AllFit(p, rootW, rootH, rows, sources, Pairs(i, |fs|), fs)
    requires Carries(p, st1) && FlagsSeen(st1, sa, sc, req)
    ensures |frames + fs| <= |Origins(sources)|
    ensures AllFit(p, rootW, rootH, rows, sources, Origins(sources)[..|frames + fs|], frames + fs)
    ensures r.stopped || i + 1 == |sources| ==> InputsFrom(sources, 0, 0, sa, sc, req) == r
    ensures !(r.stopped || i + 1 == |sources|) ==> InputsLoop(p, rootW, rootH, rows, sources, req, sa, sc, i + 1, st1, frames + fs)
  {
    OriginsAt(sources, i, |fs|);
    AllFitConcat(p, rootW, rootH, rows, sources, Origins(sources[..i]), frames, Pairs(i, |fs|), fs);
    if !(r.stopped || i + 1 == |sources|) {
      OnlyLastInputClosesUnlessStopped(sources[i], 0, st.count, sa, sc, req);
      SubframesCount(sources[i], 0, st.count, false, sa, sc, req);
      OriginsSnoc(sources, i);
      assert Pairs(i, |fs|) == Pairs(i, |sources[i].subframes|);
    } else if !r.stopped {
      assert InputsFrom(sources, i + 1, r.count, sa, sc, req) == Progress(false, r.count, false);
    }
  }

  /** The input loop of doEncode, from the flags the run starts with: the
      request is observed once before the first input; before each input an
      abort that does not keep a complete file ends the run; otherwise the
      input's images are encoded. It follows InputsFrom, and the frames it hands
      over fit the run's first images in order. */
  method EncodeInputs(p: EncodeParams, rootW: int, rootH: int, rows: seq<InputFileData>, sources: seq<SourceInput>,
                      req: Option<AbortRequest>, st0: RunState)
    returns (r: Progress, st: RunState, frames: seq<EncodedFrame>)
    requires |sources| == |rows| && WellFormedSources(sources)
    requires Carries(p, st0) && st0.count == 0
    ensures r == InputsFrom(sources, 0, 0, st0.encodeAbort, st0.abortCompleteFile, req)
    ensures r.count == st.count == |frames| <= |Origins(sources)|
    ensures AllFit(p, rootW, rootH, rows, sources, Origins(sources)[..r.count], frames)
    ensures Carries(p, st) && FlagsSeen(st, st0.encodeAbort, st0.abortCompleteFile, req)
  {
    ghost var sa, sc := st0.encodeAbort, st0.abortCompleteFile;
    st, frames := Observe(st0, req), [];
    var i := 0;
    while i < |sources|
      invariant InputsLoop(p, rootW, rootH, rows, sources, req, sa, sc, i, st, frames)
    {
      if st.encodeAbort && !st.abortCompleteFile {
        InputsLoopPrefix(p, rootW, rootH, rows, sources, req, sa, sc, i, st, frames);
        return Progress(true, st.count, false), st, frames;
      }
      var st1, fs;
      r, st1, fs := EncodeInput(p, rootW, rootH, rows, sources, i, req, sa, sc, st);
      InputsLoopStep(p, rootW, rootH, rows, sources, req, sa, sc, i, st, frames, r, st1, fs);
      st, frames := st1, frames + fs;
      if r.stopped || i + 1 == |sources| {
        return;
      }
      i := i + 1;
    }
    InputsLoopPrefix(p, rootW, rootH, rows, sources, req, sa, sc, i, st, frames);
    r := Progress(false, st.count, false);
  }

  // ---------------------------------------------------------------------------
  // The encoder object

  /** JXLEncoderObject: the abort flags the interface sets, whether the last run
      was aborted, the rows to encode, the frame counter, the auto-crop
      baseline, the parameters and root size, whether libjxl's encoder and
      runner exist, and what was handed to libjxl: the frames in order and
      whether the input was closed. */
  class EncoderObject {
    var encodeAbort: bool
    var abortCompleteFile: bool
    var isAborted: bool
    var idat: seq<InputFileData>
    var totalFramesProcessed: nat
    var prevFrame: Option<AutoCrop.Image>
    var params: EncodeParams
    var rootWidth: int
    var rootHeight: int
    var haveEngine: bool
    var frames: seq<EncodedFrame>
    var inputClosed: bool

    ghost predicate Valid()
      reads this
    {
      ValidParams(params) && (prevFrame.Some? ==> prevFrame.value.WellFormed())
    }

    /** A fresh object with the given parameters, root size and engine. */
    constructor (p: EncodeParams, rootW: int, rootH: int, engineOk: bool)
      requires ValidParams(p)
      ensures Valid()
      ensures !encodeAbort && abortCompleteFile && !isAborted && idat == [] && totalFramesProcessed == 0
      ensures prevFrame == None && params == p && rootWidth == rootW && rootHeight == rootH
      ensures haveEngine == engineOk && frames == [] && !inputClosed
    {
      encodeAbort, abortCompleteFile, isAborted, idat, totalFramesProcessed := false, true, false, [], 0;
      prevFrame, params, rootWidth, rootHeight := None, p, rootW, rootH;
      haveEngine, frames, inputClosed := engineOk, [], false;
    }

    method SetEncodeParams(p: EncodeParams)
      requires Valid() && ValidParams(p)
      modifies this`params
      ensures Valid() && params == p
    {
      params := p;
    }

    method AppendInputFile(row: InputFileData)
      modifies this`idat
      ensures idat == old(idat) + [row]
    {
      idat := idat + [row];
    }

    /** abortEncode: raise the abort flag and record whether the frames done so
        far are to be kept as a complete file. */
    method AbortEncode(completeFile: bool)
      modifies this`encodeAbort, this`abortCompleteFile
      ensures encodeAbort && abortCompleteFile == completeFile
    {
      encodeAbort, abortCompleteFile := true, completeFile;
    }

    /** resetEncoder: clear the abort state, the rows, the counter and the
        baseline; it fails when the encoder or runner is missing, and otherwise
        resets libjxl's encoder, which forgets the frames it was given. */
    method ResetEncoder() returns (ok: bool)
      requires Valid()
      modifies this`isAborted, this`encodeAbort, this`abortCompleteFile, this`idat, this`totalFramesProcessed,
               this`prevFrame, this`frames, this`inputClosed
      ensures Valid() && ok == haveEngine
      ensures !isAborted && !encodeAbort && abortCompleteFile && idat == [] && totalFramesProcessed == 0
      ensures prevFrame == None
      ensures ok ==> frames == [] && !inputClosed
      ensures !ok ==> frames == old(frames) && inputClosed == old(inputClosed)
    {
      isAborted, encodeAbort, abortCompleteFile, idat, totalFramesProcessed := false, false, true, [], 0;
      prevFrame := None;
      if !haveEngine {
        return false;
      }
      frames, inputClosed := [], false;
      ok := true;
    }

    /** cleanupEncoder, given whether the output file exists, its size and
        whether the file system lets it be removed: the file is removed exactly
        when it exists and is empty or the run was aborted without keeping a
        complete file; the result is false only when such a removal fails. */
    method CleanupEncoder(fileExists: bool, fileSize: nat, removeOk: bool) returns (ok: bool, removed: bool)
      ensures removed <==> fileExists && DeletesOutput(fileSize, isAborted, abortCompleteFile) && removeOk
      ensures ok <==> !(fileExists && DeletesOutput(fileSize, isAborted, abortCompleteFile)) || removeOk
    {
      if !fileExists {
        return true, false;
      }
      if fileSize == 0 || (isAborted && !abortCompleteFile) {
        return removeOk, removeOk;
      }
      return true, false;
    }

    /** The input loop of doEncode on the object: the run's frames are handed
        to libjxl, the counter, baseline and abort flags follow the loop, and the
        rows are cleared on success. */
    method EncodeAll(sources: seq<SourceInput>, req: Option<AbortRequest>) returns (r: Progress)
      requires Valid() && |sources| == |idat| && WellFormedSources(sources)
      modifies this`frames, this`totalFramesProcessed, this`prevFrame, this`encodeAbort, this`abortCompleteFile,
               this`isAborted, this`inputClosed, this`idat
      ensures Valid()
      ensures r == InputsFrom(sources, 0, 0, old(encodeAbort), old(abortCompleteFile), req)
      ensures isAborted == r.stopped && r.count <= |Origins(sources)|
      ensures |frames| == |old(frames)| + r.count && frames[..|old(frames)|] == old(frames)
      ensures AllFit(params, rootWidth, rootHeight, old(idat), sources, Origins(sources)[..r.count], frames[|old(frames)|..])
      ensures totalFramesProcessed == old(totalFramesProcessed) + r.count
      ensures encodeAbort == AbortSeen(old(encodeAbort), req, r.count)
      ensures abortCompleteFile == CompleteSeen(old(abortCompleteFile), req, r.count)
      ensures inputClosed == (old(inputClosed) || r.closed)
      ensures idat == (if r.stopped then old(idat) else [])
    {
      var st, fs;
      r, st, fs := EncodeInputs(params, rootWidth, rootHeight, idat, sources, req,
                                RunState(0, prevFrame, true, encodeAbort, abortCompleteFile));
      CommitFrames(r, st, fs);
      CommitFlags(r, st);
      assert frames[|old(frames)|..] == fs;
    }

    /** Records what the loop handed to libjxl. */
    method CommitFrames(r: Progress, st: RunState, fs: seq<EncodedFrame>)
      requires Valid() && (st.prevFrame.Some? ==> st.prevFrame.value.WellFormed())
      modifies this`frames, this`totalFramesProcessed, this`prevFrame, this`inputClosed
      ensures Valid()
      ensures frames == old(frames) + fs && totalFramesProcessed == old(totalFramesProcessed) + r.count
      ensures prevFrame == st.prevFrame && inputClosed == (old(inputClosed) || r.closed)
    {
      frames := frames + fs;
      totalFramesProcessed := totalFramesProcessed + r.count;
      prevFrame := st.prevFrame;
      inputClosed := inputClosed || r.closed;
    }

    /** Records how the loop ended. */
    method CommitFlags(r: Progress, st: RunState)
      requires Valid()
      modifies this`encodeAbort, this`abortCompleteFile, this`isAborted, this`idat
      ensures Valid()
      ensures encodeAbort == st.encodeAbort && abortCompleteFile == st.abortCompleteFile && isAborted == r.stopped
      ensures idat == if r.stopped then old(idat) else []
    {
      encodeAbort, abortCompleteFile, isAborted := st.encodeAbort, st.abortCompleteFile, r.stopped;
      if !r.stopped {
        idat := [];
      }
    }

    /** doEncode. Without rows it fails at once. Otherwise it opens the output
        file through the sink and fails if that or libjxl's setup fails
        (`engineAccepts`) or the bit depth is not one of the four; then it runs
        the input loop and closes the output file, which the sink keeps
        whichever way the run ends; it succeeds iff the loop was not stopped. */
    method DoEncode(own: seq<SourceInput>, sink: OutputSink.JxlOutputProcessor, writable: bool,
                    engineAccepts: bool, req: Option<AbortRequest>) returns (ok: bool, r: Progress)
      requires Valid() && sink.Valid() && !sink.isOpen
      requires |own| == |idat| && WellFormedSources(own)
      modifies this`frames, this`totalFramesProcessed, this`prevFrame, this`encodeAbort, this`abortCompleteFile,
               this`isAborted, this`inputClosed, this`idat, sink
      ensures Valid() && sink.Valid() && !sink.isOpen
      ensures old(idat) != [] ==> sink.fileName == params.outputFileName
      ensures !(old(idat) != [] && writable && engineAccepts && !params.bitDepth.Unsupported?) ==>
        && !ok && isAborted && frames == old(frames) && idat == old(idat)
        && totalFramesProcessed == old(totalFramesProcessed) && prevFrame == old(prevFrame)
        && encodeAbort == old(encodeAbort) && abortCompleteFile == old(abortCompleteFile)
        && inputClosed == old(inputClosed)
      ensures old(idat) != [] && writable && engineAccepts && !params.bitDepth.Unsupported? ==>
        var sources := SharedSource(Kinds(old(idat)), own, false);
        && r == InputsFrom(sources, 0, 0, old(encodeAbort), old(abortCompleteFile), req)
        && ok == !r.stopped && isAborted == r.stopped && r.count <= |Origins(sources)|
        && |frames| == |old(frames)| + r.count && frames[..|old(frames)|] == old(frames)
        && AllFit(params, rootWidth, rootHeight, old(idat), sources, Origins(sources)[..r.count], frames[|old(frames)|..])
        && totalFramesProcessed == old(totalFramesProcessed) + r.count
        && encodeAbort == AbortSeen(old(encodeAbort), req, r.count)
        && abortCompleteFile == CompleteSeen(old(abortCompleteFile), req, r.count)
        && inputClosed == (old(inputClosed) || r.closed)
        && idat == (if ok then [] else old(idat))
    {
      r := Progress(true, 0, false);
      if idat == [] {
        isAborted := true;
        return false, r;
      }
      var created := sink.SetOutputPath(params.outputFileName, writable);
      if !created {
        isAborted := true;
        return false, r;
      }
      if !engineAccepts || params.bitDepth.Unsupported? {
        sink.CloseOutputFile();
        isAborted := true;
        return false, r;
      }
      var sources := SharedSource(Kinds(idat), own, false);
      SharedSourceKeeps(Kinds(idat), own, false);
      r := EncodeAll(sources, req);
      sink.CloseOutputFile();
      ok := !r.stopped;
    }
  }

  /** cleanupEncoder's test: an empty output, or one left by an abort that did
      not keep a complete file. */
  predicate DeletesOutput(fileSize: nat, isAborted: bool, abortCompleteFile: bool) {
    fileSize == 0 || (isAborted && !abortCompleteFile)
  }
}
