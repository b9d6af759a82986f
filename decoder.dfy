/** The frame source: JXLDecoderObject reads JPEG XL files through libjxl, one
    frame per read, and every other format through QImageReader. libjxl is seen
    through the events its decoder reports, in order; QImageReader through the
    frames it yields. */
module Decoder {
  import opened Types
  import FrameHeaders

  // ---------------------------------------------------------------------------
  // What libjxl reports

  /** JxlExtraChannelType, as far as the decoder looks at it. */
  datatype ChannelType = Black | OtherChannel

  /** The JxlBasicInfo fields the decoder reads. Each extra channel is the answer
      to JxlDecoderGetExtraChannelInfo, None when that query fails. */
  datatype BasicInfo = BasicInfo(
    xsize: nat,
    ysize: nat,
    haveAnimation: bool,
    tpsNumerator: nat,
    tpsDenominator: nat,
    extraChannels: seq<Option<ChannelType>>)

  /** The JxlFrameHeader fields the program reads, with the frame's name as text. */
  datatype FrameInfo = FrameInfo(
    duration: nat,
    isLast: bool,
    cropX0: int,
    cropY0: int,
    xsize: nat,
    ysize: nat,
    nameLength: nat,
    name: string,
    blend: FrameHeaders.BlendInfo,
    saveAsReference: int)

  /** A zero-initialised JxlFrameHeader. */
  const ZeroFrameInfo: FrameInfo :=
    FrameInfo(0, false, 0, 0, 0, 0, 0, "", FrameHeaders.BlendInfo(0, 0, 0, false), 0)

  /** One result of JxlDecoderProcessInput, with what the program then asks
      libjxl for. None stands for that follow-up query failing: the basic info,
      the ICC profile, the frame header or the output buffer size. */
  datatype Event =
    | DecError
    | DecNeedMoreInput(atEnd: bool)
    | DecBasicInfo(info: Option<BasicInfo>)
    | DecColorEncoding(icc: Option<seq<Byte>>)
    | DecFrame(header: Option<FrameInfo>)
    | DecNeedImageOutBuffer(size: Option<nat>)
    | DecFullImage(pixels: seq<Byte>)
    | DecSuccess

  /** JxlSignatureCheck of the first chunk. */
  datatype Signature = SigValid | SigNotEnoughBytes | SigInvalid

  /** A JPEG XL file as the decoder meets it: whether it opens, its signature, and
      the events of the metadata pass and of the frame pass. */
  datatype JxlFile = JxlFile(opens: bool, signature: Signature, metadataEvents: seq<Event>, frameEvents: seq<Event>)

  /** A decoded image: its size, sample type and bytes. */
  datatype Picture = Picture(width: int, height: int, format: DataType, data: seq<Byte>)

  /** One image QImageReader yields (None when it cannot decode it), with its
      rectangle and delay. */
  datatype ReaderFrame = ReaderFrame(picture: Option<Picture>, rect: Rect, delay: int)

  /** A file of another format as QImageReader sees it: its frames, whether the
      format supports animation, and its size. */
  datatype ImageFile = ImageFile(frames: seq<ReaderFrame>, supportsAnimation: bool, width: int, height: int)

  /** The decoder's error string. */
  datatype ErrorText =
    | NoError | NoEngine | OpenFailed | SignatureTooShort | SignatureInvalid
    | DecoderError | InputExhausted | BasicInfoFailed | ExtraChannelInfoFailed
    | IccFailed | FrameHeaderFailed | OutBufferFailed

  /** Whether an event loop is still running, broke out successfully, or gave up. */
  datatype Outcome = Running | Succeeded | Failed

  // ---------------------------------------------------------------------------
  // File names

  function LowerChar(c: char): char {
    if 'A' <= c <= 'Z' then (c as int + 32) as char else c
  }

  /** QString::toLower on ASCII letters. */
  function Lower(s: string): (r: string)
    ensures |r| == |s| && forall k :: 0 <= k < |s| ==> r[k] == LowerChar(s[k])
  {
    seq(|s|, k requires 0 <= k < |s| => LowerChar(s[k]))
  }

  /** Lower-casing leaves a name without capital letters as it is. */
  lemma LowerKeepsLowerCase(s: string)
    requires forall k :: 0 <= k < |s| ==> !('A' <= s[k] <= 'Z')
    ensures Lower(s) == s
  {
  }

  /** The suffix test ignores case: "X.JXL" is read as JPEG XL and "X.TIF" and
      "X.Tiff" as one-shot formats. */
  lemma SuffixIgnoresCase(base: string)
    ensures Lower(Suffix(base + ".JXL")) == "jxl"
    ensures Lower(Suffix(base + ".TIF")) in ONE_SHOT_SUFFIXES
    ensures Lower(Suffix(base + ".Tiff")) in ONE_SHOT_SUFFIXES
  {
    assert ".JXL"[1..] == "JXL" && ".TIF"[1..] == "TIF" && ".Tiff"[1..] == "Tiff";
    LoweredSuffix(base, ".JXL");
    LoweredSuffix(base, ".TIF");
    LoweredSuffix(base, ".Tiff");
    assert Lower("JXL") == "jxl" by {
      assert LowerChar('J') == 'j' && LowerChar('X') == 'x' && LowerChar('L') == 'l';
    }
    assert Lower("TIF") == "tif" by {
      assert LowerChar('T') == 't' && LowerChar('I') == 'i' && LowerChar('F') == 'f';
    }
    assert Lower("Tiff") == "tiff" by {
      assert LowerChar('T') == 't' && LowerChar('i') == 'i' && LowerChar('f') == 'f';
    }
  }

  /** The lower-cased suffix of a name ending in a dot and an extension is the
      lower-cased extension. */
  lemma LoweredSuffix(base: string, dotted: string)
    requires |dotted| >= 1 && dotted[0] == '.' && '.' !in dotted[1..] && '/' !in dotted[1..]
    ensures Lower(Suffix(base + dotted)) == Lower(dotted[1..])
  {
    assert base + dotted == base + "." + dotted[1..];
    SuffixOfExtension(base, dotted[1..]);
  }

  /** The characters after the last '.' of the file name (the part of the path
      after its last '/'), or None when the file name has no '.'. */
  function AfterLastDot(path: string): (r: Option<string>)
    ensures r.Some? ==> '.' !in r.value && '/' !in r.value
  {
    if path == [] then None
    else
      var c := path[|path| - 1];
      if c == '/' then None
      else if c == '.' then Some([])
      else match AfterLastDot(path[..|path| - 1])
        case None => None
        case Some(t) => Some(t + [c])
  }

  /** QFileInfo::suffix */
  function Suffix(path: string): string {
    match AfterLastDot(path)
    case None => ""
    case Some(t) => t
  }

  /** The suffix of "<base>.<ext>" is `ext` whenever `ext` holds no '.' and no '/'. */
  lemma SuffixOfExtension(base: string, ext: string)
    requires '.' !in ext && '/' !in ext
    ensures Suffix(base + "." + ext) == ext
  {
    AfterDotOfExtension(base, ext);
  }

  lemma {:induction false} AfterDotOfExtension(base: string, ext: string)
    requires '.' !in ext && '/' !in ext
    ensures AfterLastDot(base + "." + ext) == Some(ext)
  {
    var p := base + "." + ext;
    if ext == [] {
      assert p[|p| - 1] == '.';
    } else {
      var init, c := ext[..|ext| - 1], ext[|ext| - 1];
      assert ext == init + [c];
      assert p[|p| - 1] == c;
      assert p[..|p| - 1] == base + "." + init;
      AfterDotOfExtension(base, init);
    }
  }

  /** Formats whose QImageReader may keep reporting more images: they are read once. */
  const ONE_SHOT_SUFFIXES: seq<string> := ["tif", "tiff"]

  // ---------------------------------------------------------------------------
  // Values derived from headers

  /** The data type frames are decoded to, following the output bit depth; an
      unsupported depth decodes to 8-bit samples. */
  function DecodeDataType(depth: BitDepth): (t: DataType)
    ensures !depth.Unsupported? ==> Some(t) == FrameHeaders.PixelDataType(depth)
  {
    match depth
    case Bit16 => TypeUint16
    case Bit16F => TypeFloat16
    case Bit32F => TypeFloat
    case _ => TypeUint8
  }

  /** Milliseconds per tick of an animated file: 1000 * denominator / numerator,
      the product taken in 32-bit unsigned arithmetic; 0 leaves the previous value. */
  function TickMs(info: BasicInfo, previous: real): (ms: real)
    ensures info.haveAnimation && info.tpsNumerator > 0 ==>
      ms == ToUint32(info.tpsDenominator * 1000) as real / info.tpsNumerator as real
    ensures !(info.haveAnimation && info.tpsNumerator > 0) ==> ms == previous
    ensures info.haveAnimation && info.tpsNumerator > 0 && info.tpsDenominator * 1000 <= UINT32_MAX ==>
      ms * info.tpsNumerator as real == (info.tpsDenominator * 1000) as real
  {
    if info.haveAnimation && info.tpsNumerator > 0 then
      ToUint32(info.tpsDenominator * 1000) as real / info.tpsNumerator as real
    else previous
  }

  /** The delay in milliseconds reported for a JPEG XL frame: the frame's duration
      in ticks times the tick length, truncated to an integer. */
  function JxlDelay(tickMs: real, duration: nat): (ms: int)
    requires tickMs >= 0.0
    ensures 0 <= ms && ms as real <= tickMs * duration as real < ms as real + 1.0
  {
    (tickMs * duration as real).Floor
  }

  // ---------------------------------------------------------------------------
  // The extra-channel check

  /** The index of the first extra channel whose query fails, or the count. */
  function FirstFailure(channels: seq<Option<ChannelType>>): (n: nat)
    ensures n <= |channels|
    ensures forall k :: 0 <= k < n ==> channels[k].Some?
    ensures n < |channels| ==> channels[n].None?
  {
    if channels == [] || channels[0].None? then 0 else 1 + FirstFailure(channels[1..])
  }

  /** A BLACK channel is among those queried before the first failure: the file
      is CMYK. */
  predicate HasBlackChannel(channels: seq<Option<ChannelType>>) {
    exists k :: 0 <= k < FirstFailure(channels) && channels[k] == Some(Black)
  }

  /** The extra-channel loop of the basic-info step: query the channels in order,
      stop at the first query that fails, and report whether a BLACK channel came
      before it and whether a query failed. */
  method ScanExtraChannels(channels: seq<Option<ChannelType>>) returns (black: bool, failed: bool)
    ensures black <==> HasBlackChannel(channels)
    ensures failed <==> FirstFailure(channels) < |channels|
  {
    black, failed := false, false;
    var i := 0;
    while i < |channels|
      invariant 0 <= i <= FirstFailure(channels)
      invariant !failed
      invariant black <==> exists k :: 0 <= k < i && channels[k] == Some(Black)
    {
      if channels[i].None? {
        failed := true;
        break;
      }
      if channels[i] == Some(Black) {
        black := true;
      }
      i := i + 1;
    }
  }

  // ---------------------------------------------------------------------------
  // The metadata pass, as a fold over its events

  /** The decoder fields the metadata pass changes. */
  datatype MetaState = MetaState(
    numFrames: int,
    isCMYK: bool,
    jxlHasAnim: bool,
    rootWidth: int,
    rootHeight: int,
    currentRect: Rect,
    frameDurationMs: real,
    pixelType: DataType,
    rootIcc: seq<Byte>,
    err: ErrorText)

  /** The basic-info step: a failed extra-channel query is recorded but does not
      end the pass; a BLACK channel before it marks the file CMYK; the canvas size,
      animation flag, tick length and decoded sample type are taken over. */
  function AfterBasicInfo(s: MetaState, info: BasicInfo, depth: BitDepth): MetaState {
    var failed := FirstFailure(info.extraChannels) < |info.extraChannels|;
    s.(isCMYK := s.isCMYK || HasBlackChannel(info.extraChannels),
       err := if failed then ExtraChannelInfoFailed else s.err,
       jxlHasAnim := info.haveAnimation,
       rootWidth := info.xsize,
       rootHeight := info.ysize,
       currentRect := Rect(0, 0, info.xsize, info.ysize),
       frameDurationMs := TickMs(info, s.frameDurationMs),
       pixelType := DecodeDataType(depth))
  }

  /** One event of the metadata pass. */
  function MetaStep(s: MetaState, e: Event, depth: BitDepth): (MetaState, Outcome) {
    match e
    case DecError => (s.(err := DecoderError), Failed)
    case DecNeedMoreInput(atEnd) => if atEnd then (s.(err := InputExhausted), Failed) else (s, Running)
    case DecBasicInfo(None) => (s.(err := BasicInfoFailed), Failed)
    case DecBasicInfo(Some(info)) => (AfterBasicInfo(s, info, depth), Running)
    case DecColorEncoding(None) => (s.(err := IccFailed), Failed)
    case DecColorEncoding(Some(icc)) => (s.(rootIcc := icc), Running)
    case DecFrame(_) => (s.(numFrames := s.numFrames + 1), Running)
    case DecSuccess => (s, Succeeded)
    case _ => (s, Running)
  }

  /** The state when a loop stops, how it stopped, and the events it left. */
  datatype MetaResult = MetaResult(state: MetaState, outcome: Outcome, rest: seq<Event>)

  /** The metadata loop: process events until one ends it or none are left
      (outcome Running). */
  function MetaRun(s: MetaState, events: seq<Event>, depth: BitDepth): MetaResult
    decreases |events|
  {
    if events == [] then MetaResult(s, Running, [])
    else
      var (s', o) := MetaStep(s, events[0], depth);
      if o != Running then MetaResult(s', o, events[1..]) else MetaRun(s', events[1..], depth)
  }

  /** The events that end the metadata pass whatever the state. */
  predicate EndsMetadata(e: Event) {
    e.DecError? || (e.DecNeedMoreInput? && e.atEnd) || (e.DecBasicInfo? && e.info.None?)
    || (e.DecColorEncoding? && e.icc.None?) || e.DecSuccess?
  }

  /** Index of the first event that ends the metadata pass, or the count. */
  function MetaStop(events: seq<Event>): (n: nat)
    ensures n <= |events|
    ensures forall k :: 0 <= k < n ==> !EndsMetadata(events[k])
    ensures n < |events| ==> EndsMetadata(events[n])
  {
    if events == [] || EndsMetadata(events[0]) then 0 else 1 + MetaStop(events[1..])
  }

  /** FRAME events in a list of events. */
  function CountFrames(events: seq<Event>): (n: nat)
    ensures n <= |events|
  {
    if events == [] then 0 else (if events[0].DecFrame? then 1 else 0) + CountFrames(events[1..])
  }

  /** A BASIC_INFO event that reports a BLACK channel. */
  predicate ReportsBlack(e: Event) {
    e.DecBasicInfo? && e.info.Some? && HasBlackChannel(e.info.value.extraChannels)
  }

  /** A BASIC_INFO event among `events` reports a CMYK file. */
  predicate ReportsCmyk(events: seq<Event>) {
    exists k :: 0 <= k < |events| && ReportsBlack(events[k])
  }

  lemma ReportsCmykCons(e: Event, tail: seq<Event>)
    ensures ReportsCmyk([e] + tail) <==> ReportsBlack(e) || ReportsCmyk(tail)
  {
    var evs := [e] + tail;
    if ReportsCmyk(tail) {
      var k :| 0 <= k < |tail| && ReportsBlack(tail[k]);
      assert evs[k + 1] == tail[k];
    }
    if ReportsCmyk(evs) {
      var k :| 0 <= k < |evs| && ReportsBlack(evs[k]);
      if k > 0 { assert tail[k - 1] == evs[k]; }
    }
    if ReportsBlack(e) {
      assert evs[0] == e;
    }
  }

  /** The metadata pass stops exactly at the first ending event: it succeeds iff
      that event is SUCCESS, runs out of events iff there is none, and leaves the
      events after the one that ended it. */
  lemma {:induction false} MetaRunStops(s: MetaState, events: seq<Event>, depth: BitDepth)
    decreases |events|
    ensures var r := MetaRun(s, events, depth);
            var n := MetaStop(events);
      && (r.outcome == Running <==> n == |events|)
      && (r.outcome == Succeeded <==> n < |events| && events[n] == DecSuccess)
      && r.rest == if n < |events| then events[n + 1..] else []
  {
    if events != [] {
      var e := events[0];
      MetaStepOutcome(s, e, depth);
      var (s', o) := MetaStep(s, e, depth);
      if !EndsMetadata(e) {
        MetaRunStops(s', events[1..], depth);
        assert MetaRun(s, events, depth) == MetaRun(s', events[1..], depth);
        assert MetaStop(events) == 1 + MetaStop(events[1..]);
      } else {
        assert MetaRun(s, events, depth) == MetaResult(s', o, events[1..]);
        assert MetaStop(events) == 0;
      }
    }
  }

  /** A step ends the pass exactly at the ending events, successfully only at
      SUCCESS. */
  lemma MetaStepOutcome(s: MetaState, e: Event, depth: BitDepth)
    ensures MetaStep(s, e, depth).1
      == if !EndsMetadata(e) then Running else if e == DecSuccess then Succeeded else Failed
  {
  }

  /** An event that does not end the pass counts one frame if it is a FRAME and
      marks the file CMYK if it reports a BLACK channel. */
  lemma MetaStepCounts(s: MetaState, e: Event, depth: BitDepth)
    requires !EndsMetadata(e)
    ensures var (s', o) := MetaStep(s, e, depth);
      && o == Running
      && s'.numFrames == s.numFrames + (if e.DecFrame? then 1 else 0)
      && (s'.isCMYK <==> s.isCMYK || ReportsBlack(e))
  {
  }

  /** The metadata pass counts the FRAME events before the one that ends it, and
      marks the file CMYK iff a BLACK channel was reported before it. */
  lemma {:induction false} MetaRunCounts(s: MetaState, events: seq<Event>, depth: BitDepth)
    decreases |events|
    ensures var r := MetaRun(s, events, depth);
            var n := MetaStop(events);
      && r.state.numFrames == s.numFrames + CountFrames(events[..n])
      && (r.state.isCMYK <==> s.isCMYK || ReportsCmyk(events[..n]))
  {
    if events != [] {
      var e := events[0];
      var (s', o) := MetaStep(s, e, depth);
      if EndsMetadata(e) {
        assert events[..MetaStop(events)] == [];
      } else {
        MetaStepCounts(s, e, depth);
        MetaRunCounts(s', events[1..], depth);
        var n := MetaStop(events);
        var tail := events[1..][..n - 1];
        assert events[..n] == [e] + tail;
        assert ([e] + tail)[1..] == tail;
        ReportsCmykCons(e, tail);
      }
    }
  }

  /** A metadata stream of basic info, colour encoding, `frames` FRAME events and
      SUCCESS, for a file without a CMYK channel, succeeds and counts the frames. */
  lemma WellFormedMetadataCountsFrames(s: MetaState, info: BasicInfo, icc: seq<Byte>, frames: seq<Event>, depth: BitDepth)
    requires forall k :: 0 <= k < |frames| ==> frames[k].DecFrame?
    requires !HasBlackChannel(info.extraChannels) && !s.isCMYK
    ensures var r := MetaRun(s, [DecBasicInfo(Some(info)), DecColorEncoding(Some(icc))] + frames + [DecSuccess], depth);
      r.outcome == Succeeded && r.state.numFrames == s.numFrames + |frames| && !r.state.isCMYK
  {
    var events := [DecBasicInfo(Some(info)), DecColorEncoding(Some(icc))] + frames + [DecSuccess];
    var n := |frames| + 2;
    assert forall k :: 0 <= k < n ==> !EndsMetadata(events[k]) by {
      forall k | 0 <= k < n ensures !EndsMetadata(events[k]) {
        if k >= 2 { assert events[k] == frames[k - 2]; }
      }
    }
    assert EndsMetadata(events[n]);
    MetaStopIsFirstEnd(events, n);
    MetaRunStops(s, events, depth);
    MetaRunCounts(s, events, depth);
    assert events[..n] == [DecBasicInfo(Some(info)), DecColorEncoding(Some(icc))] + frames;
    CountAllFrames(frames);
    assert CountFrames(events[..n]) == |frames| by {
      assert events[..n][2..] == frames;
    }
    forall k | 2 <= k < n ensures events[..n][k] == frames[k - 2] { }
  }

  lemma {:induction false} CountAllFrames(frames: seq<Event>)
    requires forall k :: 0 <= k < |frames| ==> frames[k].DecFrame?
    ensures CountFrames(frames) == |frames|
  {
    if frames != [] {
      CountAllFrames(frames[1..]);
    }
  }

  lemma {:induction false} MetaStopIsFirstEnd(events: seq<Event>, n: nat)
    requires n <= |events|
    requires forall k :: 0 <= k < n ==> !EndsMetadata(events[k])
    requires n < |events| ==> EndsMetadata(events[n])
    ensures MetaStop(events) == n
  {
    if n > 0 {
      MetaStopIsFirstEnd(events[1..], n - 1);
    }
  }

  // ---------------------------------------------------------------------------
  // The frame pass, as a fold over its events

  /** The decoder fields a read changes while it consumes events. */
  datatype ReadState = ReadState(isLast: bool, header: FrameInfo, frameName: string, rawData: seq<Byte>, err: ErrorText)

  /** The name read with a frame header: the buffer holds name_length + 1 bytes
      (32-bit arithmetic), the name and its terminating NUL, and QString::fromUtf8
      converts all of them, so the name ends in U+0000; a zero-sized buffer
      yields no name. */
  function NameOf(h: FrameInfo): (name: string)
    ensures ToUint32(h.nameLength + 1) > 0 ==> name == h.name + ['\0']
    ensures ToUint32(h.nameLength + 1) == 0 ==> name == ""
  {
    if ToUint32(h.nameLength + 1) > 0 then h.name + ['\0'] else ""
  }

  /** A named frame joined to a row name reaches libjxl without its trailing
      U+0000 whenever the joined name, U+0000 included, fits in 1071 bytes. */
  lemma NamedFrameReachesEncoder(h: FrameInfo, rowName: string)
    requires ToUint32(h.nameLength + 1) > 0 && rowName != ""
    requires '\0' !in rowName && '\0' !in h.name
    requires FrameHeaders.Utf8Len(rowName + " - " + h.name + ['\0']) <= FrameHeaders.MAX_NAME_BYTES
    ensures FrameHeaders.NameToSet(FrameHeaders.FrameName(rowName, Some(NameOf(h)))) == Some(rowName + " - " + h.name)
  {
    var base := rowName + " - " + h.name;
    var joined := rowName + " - " + NameOf(h);
    assert joined == base + ['\0'];
    assert FrameHeaders.FrameName(rowName, Some(NameOf(h))) == joined;
    FrameHeaders.CStringOfTerminated(base);
  }

  /** An unnamed JPEG XL frame still reports a name, the lone U+0000, so the
      encoder joins a row name "R" to it and libjxl is given "R - ". */
  lemma UnnamedFrameStillJoins(h: FrameInfo)
    requires h.nameLength == 0 && h.name == ""
    ensures NameOf(h) == "\0"
    ensures FrameHeaders.NameToSet(FrameHeaders.FrameName("R", Some(NameOf(h)))) == Some("R - ")
  {
    var joined := "R" + " - " + h.name + ['\0'];
    assert joined == "R - \0";
    assert FrameHeaders.Utf8Len(joined) == 5 by {
      FrameHeaders.AsciiUtf8Len(joined);
    }
    NamedFrameReachesEncoder(h, "R");
    assert "R" + " - " + h.name == "R - ";
  }

  /** One event of a read: a frame header is recorded and sets isLast; the full
      image of a frame that is not the last one ends the read, and so does
      SUCCESS after the last one; the last frame's full image does not. */
  function ReadStep(s: ReadState, e: Event): (ReadState, Outcome) {
    match e
    case DecError => (s.(err := DecoderError), Failed)
    case DecNeedMoreInput(atEnd) => if atEnd then (s.(err := InputExhausted), Failed) else (s, Running)
    case DecNeedImageOutBuffer(None) => (s.(err := OutBufferFailed), Failed)
    case DecNeedImageOutBuffer(Some(n)) => (s.(rawData := seq(n, _ => 0 as Byte)), Running)
    case DecFrame(None) => (s.(err := FrameHeaderFailed), Failed)
    case DecFrame(Some(h)) => (s.(header := h, isLast := h.isLast, frameName := NameOf(h)), Running)
    case DecFullImage(px) => (s.(rawData := px), if !s.isLast then Succeeded else Running)
    case DecSuccess => (s, if s.isLast then Succeeded else Running)
    case _ => (s, Running)
  }

  datatype ReadResult = ReadResult(state: ReadState, outcome: Outcome, rest: seq<Event>)

  /** The read loop: process events until one ends the read or none are left. */
  function ReadRun(s: ReadState, events: seq<Event>): ReadResult
    decreases |events|
  {
    if events == [] then ReadResult(s, Running, [])
    else
      var (s', o) := ReadStep(s, events[0]);
      if o != Running then ReadResult(s', o, events[1..]) else ReadRun(s', events[1..])
  }

  /** The events libjxl reports for one frame: its header, the request for an
      output buffer, and the full image. */
  function FrameEvents(h: FrameInfo, pixels: seq<Byte>): seq<Event> {
    [DecFrame(Some(h)), DecNeedImageOutBuffer(Some(|pixels|)), DecFullImage(pixels)]
  }

  /** The frame pass of a well-formed file: each frame's events, then SUCCESS. */
  function FrameStream(headers: seq<FrameInfo>, images: seq<seq<Byte>>): seq<Event>
    requires |headers| == |images| >= 1
    decreases |headers|
  {
    if |headers| == 1 then FrameEvents(headers[0], images[0]) + [DecSuccess]
    else FrameEvents(headers[0], images[0]) + FrameStream(headers[1..], images[1..])
  }

  /** Only the final header of a stream is marked last. */
  predicate LastMarkedLast(headers: seq<FrameInfo>) {
    forall k :: 0 <= k < |headers| ==> (headers[k].isLast <==> k == |headers| - 1)
  }

  /** The events of one frame, read when no last frame has been seen: the header
      and pixels are recorded; the read ends with the full image unless the frame
      is the last one, in which case it goes on with what follows. */
  lemma ReadOneFrame(s: ReadState, h: FrameInfo, px: seq<Byte>, tail: seq<Event>)
    requires !s.isLast
    ensures var s3 := s.(header := h, isLast := h.isLast, frameName := NameOf(h), rawData := px);
      ReadRun(s, FrameEvents(h, px) + tail)
        == if h.isLast then ReadRun(s3, tail) else ReadResult(s3, Succeeded, tail)
  {
    var evs := FrameEvents(h, px) + tail;
    var s1 := s.(header := h, isLast := h.isLast, frameName := NameOf(h));
    var s2 := s1.(rawData := seq(|px|, _ => 0 as Byte));
    assert evs[0] == DecFrame(Some(h));
    assert ReadRun(s, evs) == ReadRun(s1, evs[1..]);
    assert evs[1..][0] == DecNeedImageOutBuffer(Some(|px|));
    assert ReadRun(s1, evs[1..]) == ReadRun(s2, evs[1..][1..]);
    assert evs[1..][1..][0] == DecFullImage(px);
    assert evs[1..][1..][1..] == tail;
  }

  /** Reading a well-formed frame stream yields its first frame, with that frame's
      header, name and pixels, and leaves exactly the stream of the remaining
      frames (nothing after the last). */
  lemma ReadTakesOneFrame(s: ReadState, headers: seq<FrameInfo>, images: seq<seq<Byte>>)
    requires |headers| == |images| >= 1 && LastMarkedLast(headers)
    requires !s.isLast
    ensures var r := ReadRun(s, FrameStream(headers, images));
      && r.outcome == Succeeded
      && r.state == s.(header := headers[0], isLast := |headers| == 1, frameName := NameOf(headers[0]), rawData := images[0])
      && r.rest == if |headers| == 1 then [] else FrameStream(headers[1..], images[1..])
  {
    var h, px := headers[0], images[0];
    var tail := if |headers| == 1 then [DecSuccess] else FrameStream(headers[1..], images[1..]);
    assert FrameStream(headers, images) == FrameEvents(h, px) + tail;
    ReadOneFrame(s, h, px, tail);
    if |headers| == 1 {
      assert tail[1..] == [];
    }
  }

  /** `n` reads one after the other, each starting with an empty pixel buffer and
      going on with the events the previous one left: the state after them, the
      pixels of each read that yielded a frame, and the events left. A read that
      fails leaves no events. */
  function ReadFrames(s: ReadState, events: seq<Event>, n: nat): (ReadState, seq<seq<Byte>>, seq<Event>)
    decreases n
  {
    if n == 0 then (s, [], events)
    else
      var r := ReadRun(s.(rawData := []), events);
      if r.outcome == Succeeded then
        var (s', got, rest) := ReadFrames(r.state.(rawData := []), r.rest, n - 1);
        (s', [r.state.rawData] + got, rest)
      else ReadFrames(r.state, [], n - 1)
  }

  /** Reading a well-formed stream as many times as it has frames yields every
      frame's pixels in order, ends on the last frame's header with isLast set,
      and consumes the whole stream. */
  lemma {:induction false} ReadsEveryFrameInOrder(s: ReadState, headers: seq<FrameInfo>, images: seq<seq<Byte>>)
    requires |headers| == |images| >= 1 && LastMarkedLast(headers)
    requires !s.isLast
    decreases |headers|
    ensures var (s', got, rest) := ReadFrames(s, FrameStream(headers, images), |headers|);
      got == images && s'.isLast && s'.header == headers[|headers| - 1] && rest == []
  {
    ReadTakesOneFrame(s.(rawData := []), headers, images);
    var r := ReadRun(s.(rawData := []), FrameStream(headers, images));
    if |headers| > 1 {
      var hs, ims := headers[1..], images[1..];
      assert LastMarkedLast(hs) by {
        forall k | 0 <= k < |hs| ensures hs[k].isLast <==> k == |hs| - 1 {
          assert hs[k] == headers[k + 1];
        }
      }
      ReadsEveryFrameInOrder(r.state.(rawData := []), hs, ims);
      assert images == [images[0]] + ims;
    }
  }

  /** Before the last frame has been read, isLast stays clear: every read of a
      well-formed stream but the final one leaves more to read. */
  lemma {:induction false} NotLastBeforeFinalRead(s: ReadState, headers: seq<FrameInfo>, images: seq<seq<Byte>>, n: nat)
    requires |headers| == |images| >= 1 && LastMarkedLast(headers)
    requires !s.isLast && n < |headers|
    decreases n
    ensures !ReadFrames(s, FrameStream(headers, images), n).0.isLast
  {
    if n > 0 {
      ReadTakesOneFrame(s.(rawData := []), headers, images);
      var r := ReadRun(s.(rawData := []), FrameStream(headers, images));
      var hs, ims := headers[1..], images[1..];
      assert LastMarkedLast(hs) by {
        forall k | 0 <= k < |hs| ensures hs[k].isLast <==> k == |hs| - 1 {
          assert hs[k] == headers[k + 1];
        }
      }
      NotLastBeforeFinalRead(r.state.(rawData := []), hs, ims, n - 1);
    }
  }

  /** The metadata pass of a file succeeds from a freshly reset decoder: there is
      a decoder, the file opens, its signature is valid, the pass reaches SUCCESS
      and no CMYK channel was reported. */
  predicate MetadataAccepted(haveEngine: bool, file: JxlFile, pixelType: DataType, depth: BitDepth) {
    && haveEngine && file.opens && file.signature == SigValid
    && var r := MetaRun(MetaState(0, false, false, 0, 0, NullRect, 0.0, pixelType, [], NoError), file.metadataEvents, depth);
       r.outcome == Succeeded && !r.state.isCMYK
  }

  /** The rectangle of a decoded frame: its crop origin and size. */
  function FrameRect(h: FrameInfo): Rect {
    Rect(h.cropX0, h.cropY0, h.xsize, h.ysize)
  }

  // ---------------------------------------------------------------------------
  // The decoder object

  /** JXLDecoderObject: its private state, the decoder events libjxl has yet to
      report (`pending`), and the frames QImageReader has yet to yield. */
  class DecoderObject {
    var isJxl: bool
    var isDecodeable: bool
    var isCMYK: bool
    var jxlHasAnim: bool
    var isLast: bool
    var readingSet: bool
    var oneShotDecode: bool
    var frameDurationMs: real
    var rootWidth: int
    var rootHeight: int
    var numFrames: int
    var currentRect: Rect
    var errStr: ErrorText
    var inputFileName: string
    var inputFileSuffix: string
    var frameName: string
    var rootIcc: seq<Byte>
    var rawData: seq<Byte>
    var header: FrameInfo
    var bitDepth: BitDepth
    var pixelType: DataType
    var haveEngine: bool
    var jxlFile: JxlFile
    var pending: seq<Event>
    var imageFile: ImageFile
    var readerFrames: seq<ReaderFrame>
    var readerRect: Rect
    var readerDelay: int

    /** The tick length is never negative. */
    ghost predicate Valid()
      reads this
    {
      frameDurationMs >= 0.0
    }

    function MetaSnap(): MetaState
      reads this
    {
      MetaState(numFrames, isCMYK, jxlHasAnim, rootWidth, rootHeight, currentRect, frameDurationMs, pixelType, rootIcc, errStr)
    }

    function ReadSnap(): ReadState
      reads this
    {
      ReadState(isLast, header, frameName, rawData, errStr)
    }

    constructor ()
      ensures Valid()
      ensures !isJxl && isDecodeable && !isCMYK && !jxlHasAnim && !isLast && !readingSet && !oneShotDecode
      ensures frameDurationMs == 0.0 && rootWidth == 0 && rootHeight == 0 && numFrames == 0
      ensures currentRect == NullRect && errStr == NoError && frameName == "" && header == ZeroFrameInfo
      ensures !haveEngine && pending == [] && readerFrames == []
    {
      isJxl, isDecodeable, isCMYK, jxlHasAnim, isLast, readingSet, oneShotDecode :=
        false, true, false, false, false, false, false;
      frameDurationMs, rootWidth, rootHeight, numFrames := 0.0, 0, 0, 0;
      currentRect, errStr := NullRect, NoError;
      inputFileName, inputFileSuffix, frameName := "", "", "";
      rootIcc, rawData, header := [], [], ZeroFrameInfo;
      bitDepth, pixelType, haveEngine := Bit8, TypeFloat, false;
      jxlFile := JxlFile(false, SigInvalid, [], []);
      pending := [];
      imageFile := ImageFile([], false, -1, -1);
      readerFrames, readerRect, readerDelay := [], NullRect, 0;
    }

    /** setEncodeParams: the output bit depth decides the decoded sample type. */
    method SetEncodeParams(depth: BitDepth)
      modifies this`bitDepth
      ensures bitDepth == depth
    {
      bitDepth := depth;
    }

    /** resetJxlDecoder: every flag, counter, size, rectangle, name and buffer
      returns to its initial value, and libjxl drops its input. The decoder and
      runner are created when missing (`engineOk`: creation succeeds). The last
      frame header and the sample type are kept. */
    method ResetJxlDecoder(engineOk: bool)
      modifies this`haveEngine, this`pending, this`isCMYK, this`jxlHasAnim, this`isLast
      modifies this`readingSet, this`oneShotDecode, this`frameDurationMs, this`rootWidth
      modifies this`rootHeight, this`numFrames, this`currentRect, this`errStr, this`frameName
      modifies this`rootIcc, this`rawData
      ensures Valid()
      ensures !isCMYK && !jxlHasAnim && !isLast && !readingSet && !oneShotDecode
      ensures frameDurationMs == 0.0 && rootWidth == 0 && rootHeight == 0 && numFrames == 0
      ensures currentRect == NullRect && errStr == NoError && frameName == ""
      ensures rootIcc == [] && rawData == [] && pending == []
      ensures haveEngine == (old(haveEngine) || engineOk)
    {
      haveEngine := haveEngine || engineOk;
      pending := [];
      ClearFlags();
      ClearGeometry();
    }

    method ClearFlags()
      modifies this`isCMYK, this`jxlHasAnim, this`isLast, this`readingSet, this`oneShotDecode
      modifies this`errStr, this`frameName, this`rootIcc, this`rawData
      ensures !isCMYK && !jxlHasAnim && !isLast && !readingSet && !oneShotDecode
      ensures errStr == NoError && frameName == "" && rootIcc == [] && rawData == []
    {
      isCMYK, jxlHasAnim, isLast, readingSet, oneShotDecode := false, false, false, false, false;
      errStr, frameName, rootIcc, rawData := NoError, "", [], [];
    }

    method ClearGeometry()
      modifies this`frameDurationMs, this`rootWidth, this`rootHeight, this`numFrames, this`currentRect
      ensures frameDurationMs == 0.0 && rootWidth == 0 && rootHeight == 0 && numFrames == 0
      ensures currentRect == NullRect
    {
      frameDurationMs, rootWidth, rootHeight, numFrames := 0.0, 0, 0, 0;
      currentRect := NullRect;
    }

    /** One event of the metadata loop, applied to the fields. */
    method ApplyMetaEvent(e: Event) returns (outcome: Outcome)
      requires Valid()
      modifies this`numFrames, this`isCMYK, this`jxlHasAnim, this`rootWidth, this`rootHeight
      modifies this`currentRect, this`frameDurationMs, this`pixelType, this`rootIcc, this`errStr
      ensures Valid()
      ensures (MetaSnap(), outcome) == MetaStep(old(MetaSnap()), e, bitDepth)
    {
      outcome := Running;
      match e {
        case DecError =>
          errStr, outcome := DecoderError, Failed;
        case DecNeedMoreInput(atEnd) =>
          if atEnd {
            errStr, outcome := InputExhausted, Failed;
          }
        case DecBasicInfo(None) =>
          errStr, outcome := BasicInfoFailed, Failed;
        case DecBasicInfo(Some(info)) =>
          ApplyBasicInfo(info);
        case DecColorEncoding(None) =>
          errStr, outcome := IccFailed, Failed;
        case DecColorEncoding(Some(icc)) =>
          rootIcc := icc;
        case DecFrame(_) =>
          numFrames := numFrames + 1;
        case DecSuccess =>
          outcome := Succeeded;
        case _ =>
      }
    }

    /** The basic-info step, with the extra-channel loop. */
    method ApplyBasicInfo(info: BasicInfo)
      requires Valid()
      modifies this`isCMYK, this`jxlHasAnim, this`rootWidth, this`rootHeight
      modifies this`currentRect, this`frameDurationMs, this`pixelType, this`errStr
      ensures Valid()
      ensures MetaSnap() == AfterBasicInfo(old(MetaSnap()), info, bitDepth)
    {
      var black, failed := ScanExtraChannels(info.extraChannels);
      if failed {
        errStr := ExtraChannelInfoFailed;
      }
      if black {
        isCMYK := true;
      }
      jxlHasAnim := info.haveAnimation;
      rootWidth, rootHeight := info.xsize, info.ysize;
      currentRect := Rect(0, 0, info.xsize, info.ysize);
      if info.haveAnimation && info.tpsNumerator > 0 {
        frameDurationMs := ToUint32(info.tpsDenominator * 1000) as real / info.tpsNumerator as real;
      }
      pixelType := DecodeDataType(bitDepth);
    }

    /** The metadata loop: process events until one ends the pass or none are
      left; the fields and the remaining events are those of the fold. */
    method RunMetadataLoop() returns (outcome: Outcome)
      requires Valid()
      modifies this`numFrames, this`isCMYK, this`jxlHasAnim, this`rootWidth, this`rootHeight
      modifies this`currentRect, this`frameDurationMs, this`pixelType, this`rootIcc, this`errStr
      modifies this`pending
      ensures Valid()
      ensures MetaResult(MetaSnap(), outcome, pending) == MetaRun(old(MetaSnap()), old(pending), bitDepth)
    {
      ghost var full := MetaRun(MetaSnap(), pending, bitDepth);
      outcome := Running;
      while outcome == Running && pending != []
        invariant Valid()
        invariant outcome == Running ==> MetaRun(MetaSnap(), pending, bitDepth) == full
        invariant outcome != Running ==> MetaResult(MetaSnap(), outcome, pending) == full
        decreases |pending|
      {
        var e := pending[0];
        pending := pending[1..];
        outcome := ApplyMetaEvent(e);
      }
    }

    /** decodeJxlMetadata: without a decoder, an openable file or a valid
      signature it fails at once; otherwise it runs the metadata loop over the
      file's metadata events. It succeeds iff the loop reached SUCCESS and no
      CMYK channel was seen, and only then sets readingSet. */
    method DecodeJxlMetadata() returns (ok: bool)
      requires Valid()
      modifies this`numFrames, this`isCMYK, this`jxlHasAnim, this`rootWidth, this`rootHeight
      modifies this`currentRect, this`frameDurationMs, this`pixelType, this`rootIcc, this`errStr
      modifies this`pending, this`readingSet
      ensures Valid()
      ensures !haveEngine ==> !ok && MetaSnap() == old(MetaSnap()).(err := NoEngine)
      ensures haveEngine && !jxlFile.opens ==> !ok && MetaSnap() == old(MetaSnap()).(err := OpenFailed)
      ensures haveEngine && jxlFile.opens && jxlFile.signature != SigValid ==>
        !ok && MetaSnap() == old(MetaSnap()).(err := if jxlFile.signature == SigNotEnoughBytes then SignatureTooShort else SignatureInvalid)
      ensures haveEngine && jxlFile.opens && jxlFile.signature == SigValid ==>
        var r := MetaRun(old(MetaSnap()), jxlFile.metadataEvents, bitDepth);
        && MetaSnap() == (if r.outcome == Running then r.state.(err := DecoderError) else r.state)
        && (ok <==> r.outcome == Succeeded && !r.state.isCMYK)
      ensures readingSet == (old(readingSet) || ok)
    {
      if !haveEngine {
        errStr := NoEngine;
        return false;
      }
      if !jxlFile.opens {
        errStr := OpenFailed;
        return false;
      }
      if jxlFile.signature == SigNotEnoughBytes {
        errStr := SignatureTooShort;
        return false;
      } else if jxlFile.signature == SigInvalid {
        errStr := SignatureInvalid;
        return false;
      }
      pending := jxlFile.metadataEvents;
      var outcome := RunMetadataLoop();
      if outcome == Running {
        errStr := DecoderError;
        return false;
      }
      if outcome == Failed {
        return false;
      }
      pending := [];
      if isCMYK {
        return false;
      }
      readingSet := true;
      return true;
    }

    /** The metadata fields just after a reset. */
    function ResetMeta(): MetaState
      reads this
    {
      MetaState(0, false, false, 0, 0, NullRect, 0.0, pixelType, [], NoError)
    }

    /** setFileName: the lower-cased suffix decides the path. A ".jxl" file resets
      the decoder (creating it when missing) and runs the metadata pass; the file
      stays decodeable iff that pass succeeds. Any other file is handed to
      QImageReader and the JPEG XL state, including the one-shot flag, stays. */
    method SetFileName(name: string, file: JxlFile, image: ImageFile, engineOk: bool)
      requires Valid()
      modifies this`inputFileName, this`inputFileSuffix, this`isJxl, this`imageFile, this`readerFrames
      modifies this`haveEngine, this`pending, this`isCMYK, this`jxlHasAnim, this`isLast
      modifies this`readingSet, this`oneShotDecode, this`frameDurationMs, this`rootWidth
      modifies this`rootHeight, this`numFrames, this`currentRect, this`errStr, this`frameName
      modifies this`rootIcc, this`rawData, this`pixelType, this`jxlFile, this`isDecodeable
      ensures Valid()
      ensures inputFileName == name && inputFileSuffix == Lower(Suffix(name))
      ensures isJxl == (inputFileSuffix == "jxl")
      ensures isJxl ==> jxlFile == file && haveEngine == (old(haveEngine) || engineOk)
      ensures isJxl ==> readingSet == isDecodeable && !isLast && !oneShotDecode
      ensures isJxl ==> (isDecodeable <==> MetadataAccepted(haveEngine, file, old(pixelType), bitDepth))
      ensures isJxl ==>
        var m0 := MetaState(0, false, false, 0, 0, NullRect, 0.0, old(pixelType), [], NoError);
        var r := MetaRun(m0, file.metadataEvents, bitDepth);
        && (!haveEngine ==> MetaSnap() == m0.(err := NoEngine))
        && (haveEngine && !file.opens ==> MetaSnap() == m0.(err := OpenFailed))
        && (haveEngine && file.opens && file.signature != SigValid ==>
              MetaSnap() == m0.(err := if file.signature == SigNotEnoughBytes then SignatureTooShort else SignatureInvalid))
        && (haveEngine && file.opens && file.signature == SigValid ==>
              MetaSnap() == (if r.outcome == Running then r.state.(err := DecoderError) else r.state))
      ensures !isJxl ==> imageFile == image && readerFrames == image.frames
      ensures !isJxl ==> oneShotDecode == old(oneShotDecode) && isDecodeable == old(isDecodeable)
      ensures !isJxl ==> unchanged(this`numFrames, this`isCMYK, this`jxlHasAnim, this`rootWidth, this`rootHeight)
      ensures !isJxl ==> unchanged(this`currentRect, this`frameDurationMs, this`pixelType, this`rootIcc)
      ensures !isJxl ==> unchanged(this`errStr, this`isLast, this`frameName, this`rawData, this`pending, this`readingSet)
    {
      var suffix := Lower(Suffix(name));
      inputFileName, inputFileSuffix := name, suffix;
      if suffix == "jxl" {
        isJxl := true;
        OpenJxl(file, engineOk);
      } else {
        imageFile := image;
        readerFrames := image.frames;
        isJxl := false;
      }
    }

    /** The JPEG XL branch of setFileName: reset, then the metadata pass. */
    method OpenJxl(file: JxlFile, engineOk: bool)
      requires Valid()
      modifies this`haveEngine, this`pending, this`isCMYK, this`jxlHasAnim, this`isLast
      modifies this`readingSet, this`oneShotDecode, this`frameDurationMs, this`rootWidth
      modifies this`rootHeight, this`numFrames, this`currentRect, this`errStr, this`frameName
      modifies this`rootIcc, this`rawData, this`pixelType, this`jxlFile, this`isDecodeable
      ensures Valid()
      ensures jxlFile == file && haveEngine == (old(haveEngine) || engineOk)
      ensures readingSet == isDecodeable && !isLast && !oneShotDecode
      ensures isDecodeable <==> MetadataAccepted(haveEngine, file, old(pixelType), bitDepth)
      ensures
        var m0 := MetaState(0, false, false, 0, 0, NullRect, 0.0, old(pixelType), [], NoError);
        var r := MetaRun(m0, file.metadataEvents, bitDepth);
        && (!haveEngine ==> MetaSnap() == m0.(err := NoEngine))
        && (haveEngine && !file.opens ==> MetaSnap() == m0.(err := OpenFailed))
        && (haveEngine && file.opens && file.signature != SigValid ==>
              MetaSnap() == m0.(err := if file.signature == SigNotEnoughBytes then SignatureTooShort else SignatureInvalid))
        && (haveEngine && file.opens && file.signature == SigValid ==>
              MetaSnap() == (if r.outcome == Running then r.state.(err := DecoderError) else r.state))
    {
      ResetJxlDecoder(engineOk);
      assert MetaSnap() == MetaState(0, false, false, 0, 0, NullRect, 0.0, old(pixelType), [], NoError);
      jxlFile := file;
      isDecodeable := DecodeJxlMetadata();
    }

    /** One event of the read loop, applied to the fields. */
    method ApplyReadEvent(e: Event) returns (outcome: Outcome)
      modifies this`isLast, this`header, this`frameName, this`rawData, this`errStr
      ensures (ReadSnap(), outcome) == ReadStep(old(ReadSnap()), e)
    {
      outcome := Running;
      match e {
        case DecError =>
          errStr, outcome := DecoderError, Failed;
        case DecNeedMoreInput(atEnd) =>
          if atEnd {
            errStr, outcome := InputExhausted, Failed;
          }
        case DecNeedImageOutBuffer(None) =>
          errStr, outcome := OutBufferFailed, Failed;
        case DecNeedImageOutBuffer(Some(n)) =>
          rawData := seq(n, _ => 0 as Byte);
        case DecFrame(None) =>
          errStr, outcome := FrameHeaderFailed, Failed;
        case DecFrame(Some(h)) =>
          header := h;
          isLast := h.isLast;
          if ToUint32(h.nameLength + 1) > 0 {
            frameName := h.name + ['\0'];
          } else {
            frameName := "";
          }
        case DecFullImage(px) =>
          rawData := px;
          if !isLast {
            outcome := Succeeded;
          }
        case DecSuccess =>
          if isLast {
            outcome := Succeeded;
          }
        case _ =>
      }
    }

    /** The read loop: process events until one ends the read or none are left;
      the fields and the remaining events are those of the fold. */
    method RunReadLoop() returns (outcome: Outcome)
      modifies this`isLast, this`header, this`frameName, this`rawData, this`errStr, this`pending
      ensures ReadResult(ReadSnap(), outcome, pending) == ReadRun(old(ReadSnap()), old(pending))
    {
      ghost var full := ReadRun(ReadSnap(), pending);
      outcome := Running;
      while outcome == Running && pending != []
        invariant outcome == Running ==> ReadRun(ReadSnap(), pending) == full
        invariant outcome != Running ==> ReadResult(ReadSnap(), outcome, pending) == full
        decreases |pending|
      {
        var e := pending[0];
        pending := pending[1..];
        outcome := ApplyReadEvent(e);
      }
    }

    /** read for a JPEG XL file: the first read after the metadata pass reopens
      the file and starts the frame pass; each read then runs the read loop from
      an empty pixel buffer. On success the frame comes back with the header's
      size and the sample type of the output depth, and the current rectangle
      becomes the frame's; on failure nothing comes back and no input is left. */
    method ReadJxl() returns (pic: Option<Picture>)
      modifies this`isLast, this`header, this`frameName, this`rawData, this`errStr, this`pending
      modifies this`readingSet, this`currentRect
      ensures old(readingSet) && !jxlFile.opens ==>
        pic.None? && errStr == OpenFailed && readingSet && ReadSnap() == old(ReadSnap()).(err := OpenFailed)
        && pending == old(pending) && currentRect == old(currentRect)
      ensures !(old(readingSet) && !jxlFile.opens) ==>
        var events := if old(readingSet) then jxlFile.frameEvents else old(pending);
        var r := ReadRun(old(ReadSnap()).(rawData := []), events);
        && !readingSet
        && (pic.Some? <==> r.outcome == Succeeded)
        && (pic.Some? ==>
              && pic.value == Picture(r.state.header.xsize, r.state.header.ysize, DecodeDataType(bitDepth), r.state.rawData)
              && currentRect == FrameRect(r.state.header)
              && ReadSnap() == r.state.(rawData := [])
              && pending == r.rest)
        && (pic.None? ==> ReadSnap() == r.state && pending == [] && currentRect == old(currentRect))
    {
      if readingSet {
        if !jxlFile.opens {
          errStr := OpenFailed;
          return None;
        }
        pending := jxlFile.frameEvents;
        readingSet := false;
      }
      rawData := [];
      var outcome := RunReadLoop();
      if outcome != Succeeded {
        pending := [];
        return None;
      }
      currentRect := FrameRect(header);
      pic := Some(Picture(header.xsize, header.ysize, DecodeDataType(bitDepth), rawData));
      rawData := [];
    }

    /** read for any other format: a one-shot suffix marks the file as read once;
      QImageReader yields its next frame, whose rectangle and delay become the
      current ones. */
    method ReadOther() returns (pic: Option<Picture>)
      modifies this`oneShotDecode, this`readerFrames, this`readerRect, this`readerDelay
      ensures oneShotDecode == (old(oneShotDecode) || inputFileSuffix in ONE_SHOT_SUFFIXES)
      ensures old(readerFrames) == [] ==>
        pic.None? && readerFrames == [] && readerRect == old(readerRect) && readerDelay == old(readerDelay)
      ensures old(readerFrames) != [] ==>
        && pic == old(readerFrames)[0].picture
        && readerFrames == old(readerFrames)[1..]
        && readerRect == old(readerFrames)[0].rect
        && readerDelay == old(readerFrames)[0].delay
    {
      if inputFileSuffix in ONE_SHOT_SUFFIXES {
        oneShotDecode := true;
      }
      if readerFrames == [] {
        return None;
      }
      var f := readerFrames[0];
      readerFrames := readerFrames[1..];
      readerRect, readerDelay := f.rect, f.delay;
      pic := f.picture;
    }

    /** read */
    method Read() returns (pic: Option<Picture>)
      modifies this`isLast, this`header, this`frameName, this`rawData, this`errStr, this`pending
      modifies this`readingSet, this`currentRect
      modifies this`oneShotDecode, this`readerFrames, this`readerRect, this`readerDelay
      ensures isJxl ==> readerFrames == old(readerFrames) && oneShotDecode == old(oneShotDecode)
      ensures isJxl && old(readingSet) && !jxlFile.opens ==>
        pic.None? && errStr == OpenFailed && readingSet && ReadSnap() == old(ReadSnap()).(err := OpenFailed)
        && pending == old(pending) && currentRect == old(currentRect)
      ensures isJxl && !(old(readingSet) && !jxlFile.opens) ==>
        var events := if old(readingSet) then jxlFile.frameEvents else old(pending);
        var r := ReadRun(old(ReadSnap()).(rawData := []), events);
        && !readingSet
        && (pic.Some? <==> r.outcome == Succeeded)
        && (pic.Some? ==>
              && pic.value == Picture(r.state.header.xsize, r.state.header.ysize, DecodeDataType(bitDepth), r.state.rawData)
              && currentRect == FrameRect(r.state.header)
              && ReadSnap() == r.state.(rawData := [])
              && pending == r.rest)
        && (pic.None? ==> ReadSnap() == r.state && pending == [] && currentRect == old(currentRect))
      ensures !isJxl ==> ReadSnap() == old(ReadSnap()) && pending == old(pending) && readingSet == old(readingSet)
      ensures !isJxl ==> pic == (if old(readerFrames) == [] then None else old(readerFrames)[0].picture)
      ensures !isJxl ==> readerFrames == (if old(readerFrames) == [] then [] else old(readerFrames)[1..])
      ensures !isJxl ==> oneShotDecode == (old(oneShotDecode) || inputFileSuffix in ONE_SHOT_SUFFIXES)
    {
      if !isJxl {
        pic := ReadOther();
      } else {
        pic := ReadJxl();
      }
    }

    /** canRead: another file can be read unless it was marked one-shot and read;
      a JPEG XL file while it is decodeable and the last frame has not been read. */
    predicate CanRead()
      reads this
    {
      if !isJxl then !oneShotDecode && readerFrames != [] else isDecodeable && !isLast
    }

    /** imageCount */
    function ImageCount(): int
      reads this
    {
      if !isJxl then |imageFile.frames| else numFrames
    }

    /** nextImageDelay */
    function NextImageDelay(): int
      requires Valid()
      reads this
    {
      if !isJxl then readerDelay else JxlDelay(frameDurationMs, header.duration)
    }

    /** haveAnimation */
    predicate HaveAnimation()
      reads this
    {
      if !isJxl then |imageFile.frames| > 1 && imageFile.supportsAnimation else jxlHasAnim
    }

    /** currentImageRect */
    function CurrentImageRect(): Rect
      reads this
    {
      if !isJxl then readerRect else currentRect
    }

    /** getRootFrameSize and size */
    function RootFrameSize(): (int, int)
      reads this
    {
      if !isJxl then (imageFile.width, imageFile.height) else (rootWidth, rootHeight)
    }
  }
}
