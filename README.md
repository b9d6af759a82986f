# JXL Frame Stitcher, modelled in Dafny

JXL Frame Stitcher takes a list of input images and stitches them into one
JPEG XL file. The file can be an animation or a stack of layers and pages.
Each row of the frame list names an input file. A row also carries:

- whether the frame is saved as a reference;
- its duration in ticks, or "END" for a page end;
- the reference slot it blends over;
- its position on the canvas;
- its blend mode;
- its name.

This project models the core of that program:

- **Frame list** (`frame_list.dfy`, `blend_mode.dfy`). This covers:
  - how a row of the main window becomes an encoder descriptor;
  - how the blend mode moves between its text, its combo-box index and its integer value;
  - how rows are saved to a configuration entry and loaded back;
  - how an edit of the "selected frame" controls is merged into the selected rows.
- **Streaming output** (`output_sink.dfy`). The output processor that libjxl drives while it writes the file: a byte file with a write position and a lent buffer.
- **Frame decoder** (`decoder.dfy`). The object that yields the frames of one input. For JPEG XL inputs it runs two event loops over libjxl's decoder events: a metadata pass and a frame-by-frame read. Other formats go to an image reader.
- **Per-frame values** (`frame_header.dfy`, `auto_crop.dfy`). For each frame this covers:
  - its sample layout and packed size;
  - its duration in ticks;
  - its placement on the canvas;
  - its header, with the order in which sources override one another;
  - its name;
  - the auto-crop difference scan against a baseline frame.
- **Encoder object** (`encoder.dfy`). Its state:
  - the abort flags;
  - the queued rows;
  - the frame counter;
  - the auto-crop baseline;
  - the frames handed to libjxl.

  Its operations are `abortEncode`, `resetEncoder` and `cleanupEncoder`, and the per-frame loop of `doEncode`. That loop walks inputs, then images, and it can stop on a failed read, a discarding abort before an input, or a complete-file abort after a frame.

Parts that change state in place are classes, with `modifies` frames and `old()` postconditions:

- the encoder object;
- the decoder object;
- the output processor;
- the frame table.

Each of their loops is proved against a specification function, for example:

- `InputsFrom` and `SubframesFrom` for the encoder loops;
- `MetaRun` and `ReadRun` for the decoder's event loops;
- `IsScanResult` for the difference scan;
- `DecodeAll` for configuration loading.

The properties of the source are lemmas about those functions. Examples:

- the configuration round trip;
- the blend-mode codecs;
- the tight bounding box of auto-crop;
- which abort keeps which frames;
- that every frame of a JPEG XL file is read in order.

Things that come from outside are parameters of the model:

- The contents of input files. A JPEG XL input is the list of decoder events libjxl would report. Any other input is the list of frames the image reader would yield if the file were read on its own. What the run actually gets from each row is `Encoder.SharedSource` of those lists, because one frame source serves every row (see below).
- The success of file-system calls.
- Whether libjxl accepts its setup.
- The moment an abort request arrives. It is modelled as an `AbortRequest` that takes effect after a given number of frames.

Where the code and its description differ, the model follows the code:

- The last image of an animated input gets duration 0. It does not get the row's duration.
- `cleanupEncoder` deletes the output only when it is empty, or when the run was aborted without keeping a complete file. A finished file is never deleted.
- A discarding abort is checked only before each input. One that arrives during the last input is ignored, and the run finishes.
- A difference confined to one edge of the frame yields the 1x1 placeholder, not a crop.
- A JPEG XL frame's name, as the decoder reports it, ends in U+0000. The decoder reads the name with its terminating NUL, and Qt 6's `QString::fromUtf8` keeps that byte; the program needs Qt 6 for its 16- and 32-bit float image formats. So the name is never empty, and an unnamed frame over a row named "R" is named "R - ", since libjxl reads the name only up to the U+0000 (`Decoder.UnnamedFrameStillJoins`).
- On a run that is not aborted, libjxl's input is closed only after the last image of the last input. If that input yields no image, the input is not closed. A complete-file abort also closes it, right after the frame it arrives at.
- `doEncode` reuses one decoder object for every row. Reading a TIFF sets its one-shot flag, and only opening a JPEG XL file clears it. So after a TIFF with an image, every later non-JPEG XL input yields no image until the next JPEG XL row. The run still succeeds. A TIFF followed by a PNG encodes one frame (`Encoder.TiffThenPngEncodesOneFrame`).

## Model

| member | source | states |
|---|---|---|
| Types.ToUint32 | utils/jxlencoderobject.cpp:688-692 | `static_cast<uint32_t>` yields a value in 0..2^32-1 that is congruent to its argument modulo 2^32, and it is the identity on that range |
| BlendModes.ToString | mainwindow.cpp:36-57 | the text is non-empty exactly for the five named JxlBlendMode values |
| BlendModes.FromString | mainwindow.cpp:59-73 | the result is always a named mode, and any text other than ADD, MULADD, MUL, REPLACE falls back to BLEND |
| BlendModes.RoundTrip | mainwindow.cpp:36-73 | decoding the text of a named mode gives that mode back |
| BlendModes.FromStringStable | mainwindow.cpp:36-73 | encoding and re-decoding a decoded text changes nothing |
| BlendModes.IndexToBlend | mainwindow.cpp:880-902 | a combo index maps to a named mode, and every index outside 0..4 falls back to BLEND |
| BlendModes.BlendToIndex | mainwindow.cpp:549-568 | the combo index shown for a mode lies in 0..4, and an unnamed mode shows entry 0 |
| BlendModes.IndexCodecInverse | mainwindow.cpp:549-568 | the two combo mappings are inverse bijections between 0..4 and the named modes |
| BlendModes.ComboRoundTripThroughText | mainwindow.cpp:880-902 | choosing entry 0..4 and reselecting the frame shows the same entry again through the stored text |
| FrameList.ParseRow | mainwindow.cpp:1013-1028 | a non-integer duration cell gives page end with duration 1, an integer one gives that duration; the blend text is decoded; every other field is copied |
| FrameList.CollectInputs | mainwindow.cpp:1011-1031 | the encoder receives one descriptor per row, in row order, each the parse of its row |
| FrameList.SaveEntry | mainwindow.cpp:605-628 | a saved entry has exactly the nine keys; page end is saved as frameEndP with duration 1, an integer duration as itself |
| FrameList.DecodeEntry | mainwindow.cpp:772-800 | an entry yields a descriptor exactly when its file name is non-empty, and keeps that file name |
| FrameList.MakeRow | mainwindow.cpp:802-821 | the created item shows "END" exactly for page-end descriptors and the blend mode as text |
| FrameList.DecodeAll | mainwindow.cpp:772-823 | the loaded rows are never more than the entries and none has an empty file name |
| FrameList.LoadFileList | mainwindow.cpp:772-823 | the openConfig loop yields exactly the rows DecodeAll specifies |
| FrameList.DecodeDefaults | mainwindow.cpp:774-787 | an entry with only a file name decodes to blend BLEND, duration 1, no page end, reference 0, position (0,0), empty name |
| FrameList.DecodeBooleanIsRef | mainwindow.cpp:779-784 | a boolean isRef is read as 1 or 0 |
| FrameList.SaveLoadRoundTrip | mainwindow.cpp:605-821 | saving a row and loading it back gives a row the encoder parses exactly as the original |
| FrameList.SaveLoadListRoundTrip | mainwindow.cpp:600-823 | a whole saved list loads back to as many rows, each parsed as its original |
| FrameList.SaveAll | mainwindow.cpp:604-628 | the file list holds one saved entry per row, in order |
| FrameList.ApplyToRow | mainwindow.cpp:849-903 | an edit never changes a row's file name |
| FrameList.SentinelsKeepFields | mainwindow.cpp:840-878 | controls left on their sentinels change nothing but the position, and the top row goes to (0,0) |
| FrameList.PageEndOverridesDuration | mainwindow.cpp:857-866 | a checked page-end box writes END over any duration written by the same edit; otherwise the spin value or the old duration stays |
| FrameList.AppliedBlendShowsSameEntry | mainwindow.cpp:880-902 | an edit with blend entry 0..4 stores a text that selects the same entry again |
| FrameList.ApplyIdempotent | mainwindow.cpp:849-903 | applying the same edit twice equals applying it once |
| FrameList.MultiSelectionControls | mainwindow.cpp:508-523 | with several rows selected, every control except the position shows its "unchanged" sentinel |
| FrameList.SingleSelectionControls | mainwindow.cpp:524-577 | a single page-end row shows duration 1 with the box checked, the blend entry lies in 0..4, and the top row shows (0,0) |
| FrameList.ReapplyingSingleSelectionIsNeutral | mainwindow.cpp:524-903 | applying untouched controls to the single selected row leaves the descriptor the encoder reads unchanged |
| FrameList.MultiSelectionApplyMovesRows | mainwindow.cpp:508-903 | applying untouched multi-selection controls only moves the selected rows, except the top one, to the current item's position |
| FrameList.FrameTable.constructor | mainwindow.cpp:802-821 | the table holds the given rows |
| FrameList.FrameTable.CurrentFrameSettingChanged | mainwindow.cpp:834-906 | each selected row becomes ApplyToRow of its old value, every other row is unchanged, and the length is kept |
| OutputSink.WriteAt | jxlutils.h:73-83 | a write at a position replaces bytes from there on and keeps those before and after; the file grows only as far as the write reaches, and a gap reads as zeros |
| OutputSink.WriteAtEndAppends | jxlutils.h:73-83 | writing at the end of the file appends |
| OutputSink.PatchKeepsLength | jxlutils.h:85-92 | a write that lies inside the file keeps its length |
| OutputSink.PatchCommutesWithAppend | jxlutils.h:73-92 | appending a chunk and then patching earlier bytes equals patching first and appending afterwards |
| OutputSink.JxlOutputProcessor.constructor | jxlutils.h:99-102 | a new processor has a closed, empty file and an empty buffer |
| OutputSink.JxlOutputProcessor.SetOutputPath | jxlutils.h:34-43 | it succeeds exactly when the file can be written; on success the file is open, empty and at position 0, and on failure it stays closed |
| OutputSink.JxlOutputProcessor.CloseOutputFile | jxlutils.h:45-48 | the file is closed and its contents are kept |
| OutputSink.JxlOutputProcessor.GetBuffer | jxlutils.h:64-71 | at most 65536 bytes are granted; the buffer grows, keeping its bytes, only when it is too short, and never shrinks |
| OutputSink.JxlOutputProcessor.ReleaseBuffer | jxlutils.h:73-83 | on an open file the written bytes land at the position, which advances by their count; on a closed file nothing is written; the buffer is emptied |
| OutputSink.JxlOutputProcessor.Seek | jxlutils.h:85-92 | on an open file the position moves to the request, and on a closed file nothing changes |
| OutputSink.JxlOutputProcessor.SetFinalizedPosition | jxlutils.h:94-97 | only the finalized position changes, to the value reported |
| OutputSink.EmitChunk | jxlutils.h:64-83 | acquiring, filling and releasing a buffer writes the chunk at the current position of an open file |
| OutputSink.EmitTwoChunks | jxlutils.h:64-83 | two chunks emitted at the end of an open file are appended in order |
| AutoCrop.DiffersProperties | utils/jxlencoderobject.cpp:500-516 | a pixel never differs from itself; a non-positive threshold compares exactly; a larger positive threshold detects fewer changes |
| AutoCrop.Widen | utils/jxlencoderobject.cpp:518-523 | a changed pixel widens the corners just enough to contain it |
| AutoCrop.VisitPixel | utils/jxlencoderobject.cpp:498-523 | the corners widen exactly when the pixel differs, and the scan invariant extends over that pixel |
| AutoCrop.ScanLine | utils/jxlencoderobject.cpp:497-524 | after one row the corners cover every changed pixel scanned so far, with witnesses |
| AutoCrop.DiffBounds | utils/jxlencoderobject.cpp:493-525 | the corners are the start corner narrowed by exactly the changed pixels: min and max over them, each bound reached by a change or left at its start |
| AutoCrop.CropRectIsNonEmpty | utils/jxlencoderobject.cpp:526-535 | a crop other than the placeholder has width and height of at least 1 |
| AutoCrop.PlaceholderIffChangesOnOneEdge | utils/jxlencoderobject.cpp:526-535 | the placeholder 1x1 crop is chosen exactly when all changes lie on the left, top, right or bottom edge (no change at all included) |
| AutoCrop.CropIsTightBox | utils/jxlencoderobject.cpp:493-535 | any other crop lies inside the frame, contains every changed pixel, and each of its four edges touches a change |
| AutoCrop.SinglePixelChange | utils/jxlencoderobject.cpp:493-535 | one changed pixel away from the edges is cropped to exactly that 1x1 rectangle |
| AutoCrop.IdenticalFrameGivesPlaceholder | utils/jxlencoderobject.cpp:526-529 | a frame identical to its baseline yields the placeholder |
| AutoCrop.FirstRowChangeGivesPlaceholder | utils/jxlencoderobject.cpp:526-529 | changes confined to the first row yield the placeholder |
| AutoCrop.FullFrameCrop | utils/jxlencoderobject.cpp:526-537 | the crop is the whole frame exactly for a 1x1 frame, or when the changes reach all four edges of a frame at least 2x2 |
| AutoCrop.Copy | utils/jxlencoderobject.cpp:539-540 | QImage::copy gives the rectangle's size, with the source pixel inside the image and transparent outside |
| AutoCrop.CropFrame | utils/jxlencoderobject.cpp:537-553 | the placeholder becomes one transparent pixel at the frame's corner offset by (-1,-1); any other crop becomes an image of the crop's size, moved by the crop's origin |
| FrameHeaders.PixelDataType | utils/jxlencoderobject.cpp:208-227 | the four bit depths have a data type, and any other value has none and aborts |
| FrameHeaders.BitsPerSample | utils/jxlencoderobject.cpp:208-227 | each data type has a whole number of bytes per sample, from 8 to 32 bits |
| FrameHeaders.ExponentBits | utils/jxlencoderobject.cpp:208-227 | exactly the float types have exponent bits, fewer than their sample width |
| FrameHeaders.NumChannels | utils/jxlencoderobject.cpp:228 | 4 channels with alpha, 3 without |
| FrameHeaders.ByteSize | utils/jxlencoderobject.cpp:451-466 | the byte size per sample is 1, 2 or 4 |
| FrameHeaders.ByteSizeMatchesSampleWidth | utils/jxlencoderobject.cpp:451-466 | for a supported depth, the byte size times 8 equals the data type's sample width |
| FrameHeaders.PackedBytesHoldOneSamplePerChannel | utils/jxlencoderobject.cpp:451-466 | the packed buffer holds exactly one sample per channel per pixel |
| FrameHeaders.Round | utils/jxlencoderobject.cpp:682 | qRound of a non-negative value is within one half of it (the `int` overflow from 2^31 - 0.5 on is not followed) |
| FrameHeaders.FrameTick | utils/jxlencoderobject.cpp:670-684 | the tick is a 32-bit unsigned duration; an input that is neither animated nor reports an image count gets UINT32_MAX for a page end and the row's duration otherwise; an image followed by more gets 0 when its delay is 0 or animation is off |
| FrameHeaders.LastSubframeTick | utils/jxlencoderobject.cpp:672-677 | the last image of an animated input gets 0; otherwise a page end gets UINT32_MAX and any other row its own duration |
| FrameHeaders.TimedTickRoundsDelay | utils/jxlencoderobject.cpp:680-683 | an animated image with a delay gets the delay in ticks, at least 1, rounded to the nearest tick, wherever qRound's `int` result is defined (under 2^31 - 0.5 ticks) |
| FrameHeaders.WholeTickDelayIsExact | utils/jxlencoderobject.cpp:680-683 | a delay that is a whole number k of ticks, 1 <= k <= INT32_MAX, gives tick k exactly |
| FrameHeaders.PlaceFrame | utils/jxlencoderobject.cpp:563-574 | a crop is needed exactly when the size differs from the root, a later row is offset, a later image is offset, or auto-crop cut the frame; the offset adds the row's and the shifted rectangle's |
| FrameHeaders.FirstFrameIsNotCropped | utils/jxlencoderobject.cpp:563-574 | a full-size first frame that auto-crop did not cut is placed uncropped at (0,0) |
| FrameHeaders.AutoCroppedFrameIsPlacedAtItsRect | utils/jxlencoderobject.cpp:563-574 | a frame that auto-crop cut is always cropped, at the row's offset plus its rectangle |
| FrameHeaders.BuildHeader | utils/jxlencoderobject.cpp:686-726 | the header overrides apply in order (row, then JPEG XL source, then auto-crop); the crop fields are set exactly when a crop is needed |
| FrameHeaders.AutoCropFramesChainThroughSlotOne | utils/jxlencoderobject.cpp:718-726 | with auto-crop every frame is either saved to slot 1 or blended over slot 1 |
| FrameHeaders.SourceHeaderWinsWithoutAutoCrop | utils/jxlencoderobject.cpp:701-705 | without auto-crop, a JPEG XL source's blend info and reference slot replace the row's |
| FrameHeaders.Utf8Width | utils/jxlencoderobject.cpp:712 | a character takes 1 to 4 UTF-8 bytes, and exactly 1 for ASCII |
| FrameHeaders.Utf8Len | utils/jxlencoderobject.cpp:712 | a string's UTF-8 length lies between its length and four times it |
| FrameHeaders.Utf8LenConcat | utils/jxlencoderobject.cpp:712 | UTF-8 length is additive over concatenation |
| FrameHeaders.AsciiUtf8Len | utils/jxlencoderobject.cpp:712 | an ASCII string's UTF-8 length is its length |
| FrameHeaders.FrameName | utils/jxlencoderobject.cpp:701-716 | the source name is appended, after " - " when the row has a name; a joined name over 1071 UTF-8 bytes is cut to 1071 characters, and without a source name the row's name is kept |
| FrameHeaders.NameToSet | utils/jxlencoderobject.cpp:734-740 | a name is set exactly when it is non-empty and at most 1071 UTF-8 bytes, a U+0000 counting as one; libjxl receives it as a C string, the prefix before its first U+0000, and the whole name when it holds none |
| FrameHeaders.CString | utils/jxlencoderobject.cpp:735 | the C string of a text is its longest prefix without U+0000: it stops at the first U+0000 or at the end |
| FrameHeaders.CStringOfTerminated | utils/jxlencoderobject.cpp:735 | a text without U+0000, terminated by one, reads back as itself |
| FrameHeaders.AsciiSourceNameIsAlwaysSet | utils/jxlencoderobject.cpp:701-740 | with ASCII names and a non-empty source name, a name is always set |
| FrameHeaders.LongRowNameIsDropped | utils/jxlencoderobject.cpp:734-740 | a row name over 1071 bytes with no source name is silently dropped |
| FrameHeaders.CutNameCanStillBeDropped | utils/jxlencoderobject.cpp:710-740 | a joined name of 1072 two-byte characters is still over the limit after the cut, so no name is set |
| FrameHeaders.TwoByteUtf8Len | utils/jxlencoderobject.cpp:712 | a string of 'é' takes two bytes per character |
| Decoder.Lower | utils/jxldecoderobject.cpp:84 | lower-casing keeps the length and maps each character |
| Decoder.LowerKeepsLowerCase | utils/jxldecoderobject.cpp:84 | a name without capital letters is left as it is |
| Decoder.LoweredSuffix | utils/jxldecoderobject.cpp:83-84 | the lower-cased suffix of a name ending in a dot and an extension is the lower-cased extension |
| Decoder.SuffixIgnoresCase | utils/jxldecoderobject.cpp:84-92 | "X.JXL" has the suffix "jxl", and "X.TIF" and "X.Tiff" have one-shot suffixes |
| Decoder.AfterLastDot | utils/jxldecoderobject.cpp:84 | the suffix contains no dot and no path separator |
| Decoder.SuffixOfExtension | utils/jxldecoderobject.cpp:84 | a name ending in "." plus an extension has that extension as its suffix |
| Decoder.AfterDotOfExtension | utils/jxldecoderobject.cpp:84 | the text after the last dot of such a name is the extension |
| Decoder.DecodeDataType | utils/jxldecoderobject.cpp:277-294 | the decoder's data type agrees with the encoder's for the four supported depths |
| Decoder.TickMs | utils/jxldecoderobject.cpp:271-274 | an animated file with a positive numerator sets the tick length to the 32-bit wrapped denominator*1000 over the numerator, which is exact without wrap-around; otherwise the length is kept |
| Decoder.JxlDelay | utils/jxldecoderobject.cpp:388-396 | the delay is the tick length times the duration, truncated toward zero |
| Decoder.FirstFailure | utils/jxldecoderobject.cpp:239-247 | the extra-channel loop stops at the first channel whose info cannot be read |
| Decoder.ScanExtraChannels | utils/jxldecoderobject.cpp:239-247 | the file is CMYK exactly when a black channel is read before a failure, and the loop fails exactly when some channel's info is missing |
| Decoder.MetaStop | utils/jxldecoderobject.cpp:204-331 | the metadata loop ends at the first error, input-exhausted or success event |
| Decoder.CountFrames | utils/jxldecoderobject.cpp:323-324 | the frames counted never exceed the events |
| Decoder.MetaRunStops | utils/jxldecoderobject.cpp:204-331 | the loop runs to the end exactly when no event ends it, succeeds exactly when the first ending event is success, and leaves the events after it |
| Decoder.MetaStepOutcome | utils/jxldecoderobject.cpp:213-330 | one event keeps the loop running, succeeds or fails, according to its kind |
| Decoder.MetaStepCounts | utils/jxldecoderobject.cpp:233-324 | a non-ending event counts one frame for FRAME and sets CMYK for a black channel |
| Decoder.MetaRunCounts | utils/jxldecoderobject.cpp:204-331 | the frame count grows by the FRAME events before the stop, and CMYK is set exactly when one of them reported black |
| Decoder.WellFormedMetadataCountsFrames | utils/jxldecoderobject.cpp:204-339 | basic info, colour encoding, n frames and success give success with n frames counted and no CMYK |
| Decoder.CountAllFrames | utils/jxldecoderobject.cpp:323-324 | a run of FRAME events counts every one |
| Decoder.MetaStopIsFirstEnd | utils/jxldecoderobject.cpp:204-331 | the stop index is the first ending event |
| Decoder.ReadOneFrame | utils/jxldecoderobject.cpp:482-556 | a frame's events record its header, last flag, name and pixels, where the name is NameOf the header and so ends in U+0000; a non-last frame succeeds at its full image, and the last one continues to the success event |
| Decoder.NameOf | utils/jxldecoderobject.cpp:533-543 | the name read with a header is the header's name followed by the buffer's terminating U+0000, which QString::fromUtf8 keeps; a buffer size that wraps to 0 in 32 bits gives no name |
| Decoder.NamedFrameReachesEncoder | utils/jxlencoderobject.cpp:706-735 | a frame name joined to a row name that fits, U+0000 included, in 1071 bytes reaches libjxl as row name, " - " and frame name, without the U+0000 |
| Decoder.UnnamedFrameStillJoins | utils/jxlencoderobject.cpp:706-735 | an unnamed JPEG XL frame reports the lone U+0000, so a row named "R" gives the frame the name "R - " |
| Decoder.ReadTakesOneFrame | utils/jxldecoderobject.cpp:482-556 | each read consumes exactly one frame of a well-formed stream and returns it |
| Decoder.ReadsEveryFrameInOrder | utils/jxldecoderobject.cpp:424-599 | successive reads of a well-formed file return every frame's pixels in order and end with the last flag set |
| Decoder.NotLastBeforeFinalRead | utils/jxldecoderobject.cpp:408-422 | before the final frame has been read, the last flag is clear, so canRead stays true |
| Decoder.DecoderObject.constructor | utils/jxldecoderobject.cpp:24-62 | a new decoder has the private defaults |
| Decoder.DecoderObject.SetEncodeParams | utils/jxldecoderobject.cpp:343-346 | the bit depth is recorded |
| Decoder.DecoderObject.ResetJxlDecoder | utils/jxldecoderobject.cpp:104-133 | every flag, geometry field, error, name and buffer is cleared, and the engine exists afterwards if it existed or could be made |
| Decoder.DecoderObject.ClearFlags | utils/jxldecoderobject.cpp:116-132 | the flags, error, name and buffers are cleared |
| Decoder.DecoderObject.ClearGeometry | utils/jxldecoderobject.cpp:121-126 | the tick length, root size, frame count and rectangle are cleared |
| Decoder.DecoderObject.ApplyMetaEvent | utils/jxldecoderobject.cpp:213-330 | the object's state follows MetaStep for one event |
| Decoder.DecoderObject.ApplyBasicInfo | utils/jxldecoderobject.cpp:233-295 | basic info sets CMYK, animation, root size, rectangle, tick length and pixel type as AfterBasicInfo says |
| Decoder.DecoderObject.RunMetadataLoop | utils/jxldecoderobject.cpp:204-331 | the loop's final state, outcome and remaining events are those MetaRun specifies |
| Decoder.DecoderObject.DecodeJxlMetadata | utils/jxldecoderobject.cpp:140-341 | a missing engine, an unopenable file or a bad signature fail with their errors; otherwise the state is MetaRun's, and the result is true exactly when the loop succeeded without CMYK, which also sets readingSet |
| Decoder.DecoderObject.SetFileName | utils/jxldecoderobject.cpp:80-102 | the lower-cased suffix decides the path: a JPEG XL file resets the decoder, is decodeable exactly when its metadata is accepted, and its frame count, animation flag, root size, tick length and error are those of the metadata pass run from the reset state (MetaRun), or the early error; any other file goes to the image reader and leaves the decoder state alone |
| Decoder.DecoderObject.OpenJxl | utils/jxldecoderobject.cpp:92-97 | the decoder is reset and isDecodeable records whether the metadata pass accepted the file; the metadata fields are MetaRun's from the reset state, or the reset state with the error of a missing decoder, an unopenable file or a bad signature |
| Decoder.DecoderObject.ApplyReadEvent | utils/jxldecoderobject.cpp:491-555 | the object's state follows ReadStep for one event, the frame name included with its trailing U+0000 |
| Decoder.DecoderObject.RunReadLoop | utils/jxldecoderobject.cpp:482-556 | the loop's final state, outcome and remaining events are those ReadRun specifies |
| Decoder.DecoderObject.ReadJxl | utils/jxldecoderobject.cpp:432-596 | the first read opens the file (an open failure returns nothing); a read returns a picture exactly when ReadRun succeeds, with the frame's size, pixels and crop rectangle, and otherwise nothing with the rectangle kept |
| Decoder.DecoderObject.ReadOther | utils/jxldecoderobject.cpp:426-431 | another format returns the reader's next image, and a TIFF suffix makes it a one-shot decode |
| Decoder.DecoderObject.Read | utils/jxldecoderobject.cpp:424-599 | read dispatches on the file kind and leaves the other kind's state alone; for a JPEG XL file the picture, current rectangle, read state and remaining events are ReadRun's, as ReadJxl states; for any other file it is the reader's next frame |
| Encoder.StartRect | utils/jxlencoderobject.cpp:469-472 | the frame's rectangle is the reported one when it is valid, and the image's full rectangle when it is not |
| Encoder.AutoCropStep | utils/jxlencoderobject.cpp:483-561 | without auto-crop, or for 50,000,000 pixels or more, nothing changes; a first image or an incomparable one becomes the baseline; otherwise the scan's crop either takes the whole frame as the new baseline or replaces the frame and clears the reset flag |
| Encoder.ProcessSubframe | utils/jxlencoderobject.cpp:468-740 | the frame handed over fits its image (FrameFits); it is the frame EncodeFrame builds from the image and rectangle that CropOutcome gives for the reset flag and baseline before it, and the new reset flag and baseline are CropOutcome's |
| Encoder.Origins | utils/jxlencoderobject.cpp:414-436 | a run over all images enumerates one origin per image |
| Encoder.SubframesCount | utils/jxlencoderobject.cpp:436-897 | an input's loop hands over at most its image count, and exactly that when it is not stopped |
| Encoder.SubframesWithoutAbort | utils/jxlencoderobject.cpp:436-897 | without an abort and with every image readable, an input hands over all its images |
| Encoder.EncodesEverythingWithoutAbort | utils/jxlencoderobject.cpp:414-899 | without an abort a run hands over every image the inputs yield and closes the input exactly when the last input yields an image; what the inputs yield is SharedSource, so it can be less than the files hold |
| Encoder.KindOf | utils/jxldecoderobject.cpp:80-101 | a file is read through libjxl exactly when its lower-cased suffix is "jxl", and once exactly when it is "tif" or "tiff" |
| Encoder.Kinds | utils/jxlencoderobject.cpp:427 | each row's file kind is that of its file name |
| Encoder.SharedSourceShape | utils/jxldecoderobject.cpp:408-431 | the shared source keeps each input's animation and image count, yields a prefix of its images, and all of them for a JPEG XL file |
| Encoder.SharedSourceKeeps | utils/jxldecoderobject.cpp:408-431 | the shared source yields well-formed, readable images when the files do |
| Encoder.FlaggedSourceYieldsNothing | utils/jxldecoderobject.cpp:408-414 | while the one-shot flag is set, inputs that are not JPEG XL files yield no image |
| Encoder.OneShotHidesLaterInputs | utils/jxlencoderobject.cpp:409-436 | after a TIFF input with an image, every later input up to the next JPEG XL file yields no image |
| Encoder.TiffThenPngEncodesOneFrame | utils/jxlencoderobject.cpp:409-436 | a TIFF then a PNG, with no abort, hands over only the TIFF's first image, and the run succeeds without closing libjxl's input |
| Encoder.SubframesCompleteAbort | utils/jxlencoderobject.cpp:816-857 | a complete-file abort after m frames stops within the input at frame m, or passes the input if it ends earlier |
| Encoder.CompleteAbortKeepsRequestedFrames | utils/jxlencoderobject.cpp:816-857 | a complete-file abort requested after m frames stops the run with exactly m frames and closes the input |
| Encoder.DiscardAbortDuringLastInputIsIgnored | utils/jxlencoderobject.cpp:414-420 | a discarding abort that arrives during the last input is never seen, and every frame is encoded |
| Encoder.DiscardNeverStopsAnInput | utils/jxlencoderobject.cpp:818 | a discarding abort never stops the image loop |
| Encoder.DiscardAbortBeforeStartEncodesNothing | utils/jxlencoderobject.cpp:414-420 | a discarding abort raised before the run stops it with no frames |
| Encoder.OnlyLastInputClosesUnlessStopped | utils/jxlencoderobject.cpp:859-863 | an input other than the last closes libjxl's input only by stopping |
| Encoder.Observe | utils/jxlencoderobject.cpp:60-66 | once its frame count is reached the request sets the abort flag and its complete-file choice; before that the flags are unchanged |
| Encoder.EncodeImage | utils/jxlencoderobject.cpp:468-816 | one image produces a frame that fits it, built from CropOutcome's image and rectangle for the run's reset flag and baseline, which it updates; it counts one frame and observes the abort request |
| Encoder.EncodeInput | utils/jxlencoderobject.cpp:436-897 | the image loop's outcome is SubframesFrom, and every frame handed over fits its image in order |
| Encoder.EncodeInputs | utils/jxlencoderobject.cpp:414-899 | the input loop's outcome is InputsFrom, and the frames handed over fit the first images of the run in order |
| Encoder.EncoderObject.constructor | utils/jxlencoderobject.cpp:19-45 | a new encoder has no abort, keeps complete files, and has no rows, frames or baseline |
| Encoder.EncoderObject.SetEncodeParams | utils/jxlencoderobject.cpp:100-103 | the parameters are replaced |
| Encoder.EncoderObject.AppendInputFile | utils/jxlencoderobject.cpp:105-108 | the row is appended to the queue |
| Encoder.EncoderObject.AbortEncode | utils/jxlencoderobject.cpp:60-66 | the abort flag is raised and the complete-file choice recorded |
| Encoder.EncoderObject.ResetEncoder | utils/jxlencoderobject.cpp:68-86 | the abort state, rows, counter and baseline are cleared; it fails exactly without encoder and runner, and otherwise libjxl forgets its frames |
| Encoder.EncoderObject.CleanupEncoder | utils/jxlencoderobject.cpp:88-98 | the output is removed exactly when it exists and is empty or discard-aborted and the removal succeeds; the result is false only when such a removal fails |
| Encoder.EncoderObject.EncodeAll | utils/jxlencoderobject.cpp:407-964 | the run's frames are appended in order and fit their images; the counter, flags and input-closed state follow InputsFrom; the rows are cleared exactly on success |
| Encoder.EncoderObject.DoEncode | utils/jxlencoderobject.cpp:170-975 | no rows, an unwritable output, a failed libjxl setup or an unsupported depth abort with nothing encoded; otherwise EncodeAll's outcome holds, the output file is closed, and the result is true exactly when the run was not stopped; the inputs are SharedSource of the rows' files; an early failure leaves the frames, counter, baseline, abort flags and input-closed state as they were |

## Left out

- The user interface: signals, progress bars, status texts, colours of tree items, the enabling of controls, and the file dialogs of saving and opening.
- The configuration settings other than the file list, and the CBOR/JSON encoding itself. An entry is a map from keys to typed values.
- Saving an empty frame list: `saveConfigAs` refuses it (mainwindow.cpp:602-604). The model's SaveAll of no rows is simply empty.
- Pixel conversion, colour management and ICC profiles. The QImage format conversions, `QImageToBuffer` and the colour space given to decoded frames are not modelled. Pixels are colours with four real channels.
- Floating point. Tick lengths, the delay ratio and the fuzzy threshold are reals, so `float`/`double` rounding is not modelled.
- Decoder.JxlDelay: models the truncation of the `int` cast, but not its overflow for very long delays.
- FrameHeaders.Round and FrameHeaders.FrameTick: qRound returns an `int`, so a timed tick of 2^31 - 0.5 or more overflows before its cast to 32 bits, which C++ leaves undefined. The model rounds without bound and then reduces modulo 2^32, and TimedTickRoundsDelay and WholeTickDelayIsExact are stated only below that bound.
- Decoder.DecoderObject.DecodeJxlMetadata and Decoder.DecoderObject.ReadJxl: the failures of the decoder's own libjxl calls are not modelled. These are the setup calls of the metadata pass and of the first read (subscribing to events, the parallel runner, the input, boxes, spot colours, coalescing), the input refills, and `JxlDecoderGetFrameName`. Each ends the pass like an error event, with its own error text: the metadata pass returns false and a read returns an empty image.
- Decoder.Lower: lowers the ASCII letters A to Z only; `QString::toLower` lowers every Unicode letter.
- Encoder.EncodeInput, Encoder.EncodeInputs, Encoder.EncoderObject.EncodeAll and Encoder.EncoderObject.DoEncode: the loop contracts state FrameFits for every frame. The auto-cropped pixels and placement are stated frame by frame, against the baseline of that moment, by ProcessSubframe and EncodeImage; the loop contracts do not carry them.
- FrameHeaders.FrameName: `QString::truncate(1071)` counts UTF-16 code units. The model counts characters, which is the same only outside the supplementary planes.
- Timing statistics, speed reports and the frame-size reports.
- The worker thread and its mutex. An abort is an `AbortRequest` that takes effect after a given number of frames, which covers every interleaving of the flag with the frame loop.
- The calls into libjxl. These include the C callback trampolines of the output processor, the parallel runner, the encoder options and the box, colour and basic-info setup. Their success is the single `engineAccepts` parameter of DoEncode. Failures of the per-frame libjxl calls (`JxlEncoderSetFrameHeader`, `JxlEncoderAddImageFrame`, the frame name) are not modelled.
- The compressed bytes libjxl writes. The model records the frames it is handed and whether its input was closed. The output processor is modelled byte-exactly on its own.
- `DeleteOutputFile` of the output processor: nothing in the core calls it.
- Short writes of the output file, which only print a warning.
- The non-streaming output path (`#ifndef USE_STREAMING_OUTPUT`), chunked frames and the temporary file for very large frames.
- `canEncode` and `run`: the root size and engine are given to the constructor, and `run` is doEncode, cleanupEncoder and resetEncoder in sequence.
- The other-format image reader. It is the list of frames it would yield, with rectangle and delay. `imageCount`, `haveAnimation`, `canRead`, `nextImageDelay`, `currentImageRect` and `getRootFrameSize` are plain accessors of the model's state. They have no contracts of their own, and the encoder's sources carry their values per image.
- Reading a JPEG XL file in chunks. The events libjxl reports are given whole, and running out of input is one of those events.
- The accessors `getIccProfie`, `errorString`, `getJxlFrameHeader` and `getFrameName`: the model exposes the fields directly.
