/** The frame list of the main window: one row per input image, its cells, how a
    row becomes an encoder descriptor, how rows are saved to and loaded from a
    configuration, and how an edit of the "selected frame" controls is merged into
    the selected rows. */
module FrameList {
  import opened Types
  import BlendModes

  /** Column 2 holds either an integer tick count or the text "END" (page end); no
      other value is ever stored there. */
  datatype DurationCell = Ticks(n: int) | EndText

  /** One top-level item of the tree widget, column by column (0..7). */
  datatype Row = Row(
    filename: string,
    isRef: int,
    duration: DurationCell,
    frameRef: int,
    xPos: int,
    yPos: int,
    blend: string,
    name: string)

  // ---------------------------------------------------------------------------
  // Row to descriptor (MainWindow::doEncode)

  /** The descriptor built from a row: a non-integer duration cell means page end
      with duration 1; the blend text is decoded with stringToBlendMode. */
  function ParseRow(r: Row): (ind: InputFileData)
    ensures ind.isPageEnd <==> r.duration == EndText
    ensures ind.frameDuration == (if r.duration == EndText then 1 else r.duration.n)
    ensures BlendModes.IsNamed(ind.blendMode)
    ensures ind.blendMode == BlendModes.FromString(r.blend)
    ensures ind.filename == r.filename && ind.frameName == r.name
    ensures ind.isRefFrame == r.isRef && ind.frameReference == r.frameRef
    ensures ind.frameXPos == r.xPos && ind.frameYPos == r.yPos
  {
    var isDurInt := r.duration.Ticks?;
    InputFileData(
      r.filename,
      r.isRef,
      if isDurInt then r.duration.n else 1,
      !isDurInt,
      r.frameRef,
      r.xPos,
      r.yPos,
      BlendModes.FromString(r.blend),
      r.name)
  }

  /** The loop that hands every row, in order, to the encoder. */
  method CollectInputs(rows: seq<Row>) returns (inputs: seq<InputFileData>)
    ensures |inputs| == |rows|
    ensures forall k :: 0 <= k < |rows| ==> inputs[k] == ParseRow(rows[k])
  {
    inputs := [];
    var i := 0;
    while i < |rows|
      invariant 0 <= i <= |rows|
      invariant |inputs| == i
      invariant forall k :: 0 <= k < i ==> inputs[k] == ParseRow(rows[k])
    {
      inputs := inputs + [ParseRow(rows[i])];
      i := i + 1;
    }
  }

  // ---------------------------------------------------------------------------
  // Configuration entries (MainWindow::saveConfigAs / MainWindow::openConfig)

  /** A JSON value as far as the file-list entries use them; anything else is Other. */
  datatype Json = JInt(i: int) | JBool(b: bool) | JStr(s: string) | JOther

  type Entry = map<string, Json>

  /** QJsonValue::toInt(default), toBool(default), toString() of a key that may be absent. */
  function IntOr(e: Entry, key: string, default: int): int {
    if key in e && e[key].JInt? then e[key].i else default
  }

  function BoolOr(e: Entry, key: string, default: bool): bool {
    if key in e && e[key].JBool? then e[key].b else default
  }

  function StrOr(e: Entry, key: string): string {
    if key in e && e[key].JStr? then e[key].s else ""
  }

  /** The JSON object written for one row: a page-end row is saved with duration 1
      and frameEndP set; the blend text is saved as its decoded integer. */
  function SaveEntry(r: Row): (e: Entry)
    ensures e.Keys == {"filename", "isRef", "frameDur", "frameEndP", "frameRef",
                       "frameXPos", "frameYPos", "blend", "frameName"}
    ensures e["frameEndP"] == JBool(r.duration == EndText)
    ensures r.duration == EndText ==> e["frameDur"] == JInt(1)
    ensures r.duration.Ticks? ==> e["frameDur"] == JInt(r.duration.n)
  {
    map[
      "filename" := JStr(r.filename),
      "isRef" := JInt(r.isRef),
      "frameDur" := JInt(if r.duration.Ticks? then r.duration.n else 1),
      "frameEndP" := JBool(!r.duration.Ticks?),
      "frameRef" := JInt(r.frameRef),
      "frameXPos" := JInt(r.xPos),
      "frameYPos" := JInt(r.yPos),
      "blend" := JInt(BlendModes.FromString(r.blend)),
      "frameName" := JStr(r.name)]
  }

  /** One file-list entry read back: missing keys default to blend 2 (BLEND),
      duration 1, reference 0, position 0, no page end; a boolean isRef becomes 1/0
      and an integer one is kept; an entry without a file name yields nothing. */
  function DecodeEntry(e: Entry): (ind: Option<InputFileData>)
    ensures ind.Some? <==> StrOr(e, "filename") != ""
    ensures ind.Some? ==> ind.value.filename == StrOr(e, "filename")
  {
    var file := StrOr(e, "filename");
    var isRef :=
      if "isRef" in e && e["isRef"].JBool? then (if e["isRef"].b then 1 else 0)
      else IntOr(e, "isRef", 0);
    if file == "" then None
    else Some(InputFileData(
      file,
      isRef,
      IntOr(e, "frameDur", 1),
      BoolOr(e, "frameEndP", false),
      IntOr(e, "frameRef", 0),
      IntOr(e, "frameXPos", 0),
      IntOr(e, "frameYPos", 0),
      IntOr(e, "blend", 2),
      StrOr(e, "frameName")))
  }

  /** The tree item created for a loaded descriptor. */
  function MakeRow(ind: InputFileData): (r: Row)
    ensures r.duration == EndText <==> ind.isPageEnd
    ensures r.blend == BlendModes.ToString(ind.blendMode)
  {
    Row(
      ind.filename,
      ind.isRefFrame,
      if ind.isPageEnd then EndText else Ticks(ind.frameDuration),
      ind.frameReference,
      ind.frameXPos,
      ind.frameYPos,
      BlendModes.ToString(ind.blendMode),
      ind.frameName)
  }

  /** The rows a file list yields: entries with an empty file name are dropped. */
  function DecodeAll(entries: seq<Entry>): (rows: seq<Row>)
    ensures |rows| <= |entries|
    ensures forall k :: 0 <= k < |rows| ==> rows[k].filename != ""
  {
    if entries == [] then []
    else
      var rest := DecodeAll(entries[..|entries| - 1]);
      match DecodeEntry(entries[|entries| - 1])
      case None => rest
      case Some(ind) => rest + [MakeRow(ind)]
  }

  /** The loop of openConfig over the "fileList" array. */
  method LoadFileList(entries: seq<Entry>) returns (rows: seq<Row>)
    ensures rows == DecodeAll(entries)
  {
    rows := [];
    var i := 0;
    while i < |entries|
      invariant 0 <= i <= |entries|
      invariant rows == DecodeAll(entries[..i])
    {
      assert entries[..i + 1][..i] == entries[..i];
      var decoded := DecodeEntry(entries[i]);
      if decoded.Some? {
        rows := rows + [MakeRow(decoded.value)];
      }
      i := i + 1;
    }
    assert entries[..|entries|] == entries;
  }

  /** An entry holding only a file name decodes to the documented defaults. */
  lemma DecodeDefaults(file: string)
    requires file != ""
    ensures DecodeEntry(map["filename" := JStr(file)])
         == Some(InputFileData(file, 0, 1, false, 0, 0, 0, BlendModes.BLEND, ""))
  {
  }

  /** An isRef entry holding a boolean is read as 1 or 0. */
  lemma DecodeBooleanIsRef(e: Entry, b: bool)
    requires StrOr(e, "filename") != ""
    ensures DecodeEntry(e["isRef" := JBool(b)]).value.isRefFrame == (if b then 1 else 0)
  {
    assert StrOr(e["isRef" := JBool(b)], "filename") == StrOr(e, "filename");
  }

  /** Saving a row and loading it back gives a row that the encoder reads exactly
      as it reads the original. */
  lemma {:induction false} SaveLoadRoundTrip(r: Row)
    requires r.filename != ""
    ensures DecodeEntry(SaveEntry(r)).Some?
    ensures ParseRow(MakeRow(DecodeEntry(SaveEntry(r)).value)) == ParseRow(r)
  {
    var e := SaveEntry(r);
    assert StrOr(e, "filename") == r.filename;
    var ind := DecodeEntry(e).value;
    assert ind.isPageEnd == (r.duration == EndText);
    assert ind.blendMode == BlendModes.FromString(r.blend);
    BlendModes.FromStringStable(r.blend);
    if r.duration.Ticks? {
      assert ind.frameDuration == r.duration.n;
    }
  }

  /** A whole saved list loads back to rows the encoder reads as the originals. */
  lemma {:induction false} SaveLoadListRoundTrip(rows: seq<Row>)
    requires forall k :: 0 <= k < |rows| ==> rows[k].filename != ""
    ensures |DecodeAll(SaveAll(rows))| == |rows|
    ensures forall k :: 0 <= k < |rows| ==> ParseRow(DecodeAll(SaveAll(rows))[k]) == ParseRow(rows[k])
  {
    if rows != [] {
      var n := |rows| - 1;
      var init := rows[..n];
      SaveLoadListRoundTrip(init);
      var saved := SaveAll(rows);
      var e := SaveEntry(rows[n]);
      SaveLoadRoundTrip(rows[n]);
      SaveAllSnoc(rows);
      DecodeAllSnoc(SaveAll(init), e);
      var prefix := DecodeAll(SaveAll(init));
      var loaded := prefix + [MakeRow(DecodeEntry(e).value)];
      assert DecodeAll(saved) == loaded;
      forall k | 0 <= k < |rows|
        ensures ParseRow(loaded[k]) == ParseRow(rows[k])
      {
        if k < n {
          assert loaded[k] == prefix[k];
          assert rows[k] == init[k];
        }
      }
    }
  }

  lemma SaveAllSnoc(rows: seq<Row>)
    requires rows != []
    ensures SaveAll(rows) == SaveAll(rows[..|rows| - 1]) + [SaveEntry(rows[|rows| - 1])]
  {
    var init := rows[..|rows| - 1];
    forall k | 0 <= k < |rows|
      ensures SaveAll(rows)[k] == (SaveAll(init) + [SaveEntry(rows[|rows| - 1])])[k]
    {
      if k < |init| {
        assert rows[k] == init[k];
      }
    }
  }

  lemma DecodeAllSnoc(entries: seq<Entry>, e: Entry)
    requires DecodeEntry(e).Some?
    ensures DecodeAll(entries + [e]) == DecodeAll(entries) + [MakeRow(DecodeEntry(e).value)]
  {
    assert (entries + [e])[..|entries|] == entries;
  }

  function SaveAll(rows: seq<Row>): (entries: seq<Entry>)
    ensures |entries| == |rows|
    ensures forall k :: 0 <= k < |rows| ==> entries[k] == SaveEntry(rows[k])
  {
    seq(|rows|, k requires 0 <= k < |rows| => SaveEntry(rows[k]))
  }

  // ---------------------------------------------------------------------------
  // The "selected frame" controls (MainWindow::selectingFrames and
  // MainWindow::currentFrameSettingChanged)

  datatype CheckState = Unchecked | PartiallyChecked | Checked

  /** The values of the selected-frame controls when "apply" is pressed. */
  datatype Controls = Controls(
    saveAsRef: int,
    frameDuration: int,
    pageEnd: CheckState,
    frameRef: int,
    xPos: int,
    yPos: int,
    blendIndex: int,
    nameText: string)

  const UNCHANGED_TEXT: string := "<unchanged>"

  /** The edit of one selected row: each field is written only when its control is
      off its "unchanged" sentinel (a negative spin value, combo entry 5, the text
      "<unchanged>", a partially checked page-end box); a checked page-end box writes
      "END" over the duration; the position is always written, and the top row is
      always anchored at (0,0). */
  function ApplyToRow(c: Controls, r: Row, isTop: bool): (r': Row)
    ensures r'.filename == r.filename
  {
    var isRef := if c.saveAsRef >= 0 then c.saveAsRef else r.isRef;
    var dur := if c.frameDuration >= 0 then Ticks(c.frameDuration) else r.duration;
    var dur' := if c.pageEnd == Checked then EndText else dur;
    var frameRef := if c.frameRef >= 0 then c.frameRef else r.frameRef;
    var x := if isTop then 0 else c.xPos;
    var y := if isTop then 0 else c.yPos;
    var name := if c.nameText != UNCHANGED_TEXT then c.nameText else r.name;
    var blend :=
      if c.blendIndex != BlendModes.UNCHANGED_INDEX
      then BlendModes.ToString(BlendModes.IndexToBlend(c.blendIndex))
      else r.blend;
    Row(r.filename, isRef, dur', frameRef, x, y, blend, name)
  }

  /** Controls left on their sentinels change nothing but the position. */
  lemma SentinelsKeepFields(c: Controls, r: Row, isTop: bool)
    requires c.saveAsRef < 0 && c.frameDuration < 0 && c.pageEnd == PartiallyChecked
    requires c.frameRef < 0 && c.blendIndex == BlendModes.UNCHANGED_INDEX && c.nameText == UNCHANGED_TEXT
    ensures ApplyToRow(c, r, isTop) == r.(xPos := if isTop then 0 else c.xPos,
                                          yPos := if isTop then 0 else c.yPos)
  {
  }

  /** A checked page-end box wins over a duration written in the same edit; an
      unchecked one leaves whatever duration the spin box wrote. */
  lemma PageEndOverridesDuration(c: Controls, r: Row, isTop: bool)
    ensures c.pageEnd == Checked ==> ApplyToRow(c, r, isTop).duration == EndText
    ensures c.pageEnd != Checked && c.frameDuration >= 0 ==>
              ApplyToRow(c, r, isTop).duration == Ticks(c.frameDuration)
    ensures c.pageEnd != Checked && c.frameDuration < 0 ==>
              ApplyToRow(c, r, isTop).duration == r.duration
  {
  }

  /** A combo entry 0..4 writes the blend text that selects the same entry again. */
  lemma AppliedBlendShowsSameEntry(c: Controls, r: Row, isTop: bool)
    requires 0 <= c.blendIndex <= 4
    ensures BlendModes.BlendToIndex(BlendModes.FromString(ApplyToRow(c, r, isTop).blend)) == c.blendIndex
  {
    BlendModes.ComboRoundTripThroughText(c.blendIndex);
  }

  /** Applying the same edit twice is the same as applying it once. */
  lemma ApplyIdempotent(c: Controls, r: Row, isTop: bool)
    ensures ApplyToRow(c, ApplyToRow(c, r, isTop), isTop) == ApplyToRow(c, r, isTop)
  {
  }

  /** The controls shown when several rows are selected: every field on its sentinel,
      the position spin boxes showing the current item's position. */
  function MultiSelectionControls(current: Row): (c: Controls)
    ensures c.saveAsRef < 0 && c.frameDuration < 0 && c.frameRef < 0
    ensures c.pageEnd == PartiallyChecked
    ensures c.blendIndex == BlendModes.UNCHANGED_INDEX && c.nameText == UNCHANGED_TEXT
  {
    Controls(-1, -1, PartiallyChecked, -1, current.xPos, current.yPos,
             BlendModes.UNCHANGED_INDEX, UNCHANGED_TEXT)
  }

  /** The controls shown when exactly one row is selected: a page-end row shows
      duration 1 with the box checked; the top row shows position (0,0). */
  function SingleSelectionControls(r: Row, isTop: bool): (c: Controls)
    ensures c.pageEnd == (if r.duration == EndText then Checked else Unchecked)
    ensures r.duration == EndText ==> c.frameDuration == 1
    ensures 0 <= c.blendIndex <= 4
    ensures isTop ==> c.xPos == 0 && c.yPos == 0
  {
    Controls(
      r.isRef,
      if r.duration.Ticks? then r.duration.n else 1,
      if r.duration.Ticks? then Unchecked else Checked,
      r.frameRef,
      if isTop then 0 else r.xPos,
      if isTop then 0 else r.yPos,
      BlendModes.BlendToIndex(BlendModes.FromString(r.blend)),
      r.name)
  }

  /** Pressing "apply" on a single selected row without touching the controls leaves
      the descriptor the encoder reads unchanged (the top row must already sit at
      the origin, as every edit keeps it). */
  lemma {:induction false} ReapplyingSingleSelectionIsNeutral(r: Row, isTop: bool)
    requires isTop ==> r.xPos == 0 && r.yPos == 0
    ensures ParseRow(ApplyToRow(SingleSelectionControls(r, isTop), r, isTop)) == ParseRow(r)
  {
    var c := SingleSelectionControls(r, isTop);
    var r' := ApplyToRow(c, r, isTop);
    BlendModes.IndexCodecInverse(0, BlendModes.FromString(r.blend));
    BlendModes.FromStringStable(r.blend);
    assert r'.blend == BlendModes.ToString(BlendModes.FromString(r.blend));
    assert r'.duration == EndText <==> r.duration == EndText;
    if r.duration.Ticks? {
      assert r'.duration == r.duration;
    }
  }

  /** Pressing "apply" with several rows selected and nothing touched moves every
      selected row but the top one to the current item's position. */
  lemma MultiSelectionApplyMovesRows(current: Row, r: Row, isTop: bool)
    ensures ApplyToRow(MultiSelectionControls(current), r, isTop)
         == r.(xPos := if isTop then 0 else current.xPos, yPos := if isTop then 0 else current.yPos)
  {
    SentinelsKeepFields(MultiSelectionControls(current), r, isTop);
  }

  /** The frame list as the main window mutates it. */
  class FrameTable {
    var rows: seq<Row>

    constructor (initial: seq<Row>)
      ensures rows == initial
    {
      rows := initial;
    }

    /** currentFrameSettingChanged: merge the controls into every selected row
        (given by index, in selection order); no other row changes. */
    method CurrentFrameSettingChanged(selected: seq<nat>, c: Controls)
      requires forall k :: 0 <= k < |selected| ==> selected[k] < |rows|
      modifies this
      ensures |rows| == |old(rows)|
      ensures forall j :: 0 <= j < |rows| ==>
                rows[j] == (if j in selected then ApplyToRow(c, old(rows)[j], j == 0) else old(rows)[j])
    {
      if |rows| == 0 || |selected| == 0 {
        return;
      }
      var k := 0;
      while k < |selected|
        invariant 0 <= k <= |selected|
        invariant |rows| == |old(rows)|
        invariant forall j :: 0 <= j < |rows| ==>
                    rows[j] == (if j in selected[..k] then ApplyToRow(c, old(rows)[j], j == 0) else old(rows)[j])
      {
        var j := selected[k];
        ApplyIdempotent(c, old(rows)[j], j == 0);
        rows := rows[j := ApplyToRow(c, rows[j], j == 0)];
        assert selected[..k + 1] == selected[..k] + [j];
        k := k + 1;
      }
      assert selected[..k] == selected;
    }
  }
}
