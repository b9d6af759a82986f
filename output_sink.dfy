/** The streaming output processor that libjxl drives while it encodes: it lends
    the encoder a buffer, writes what the encoder put in it to the output file at
    the file's current position, moves that position on request, and records how
    far the output is final. */
module OutputSink {
  import opened Types

  /** Largest buffer handed to the encoder at once (1 << 16). */
  const MAX_CHUNK: nat := 65536

  function Min(a: nat, b: nat): nat { if a <= b then a else b }
  function Max(a: nat, b: nat): nat { if a >= b then a else b }

  /** The file after writing `data` at offset `pos`: earlier bytes stay, bytes from
      `pos` on are replaced, later bytes stay, and the file grows only as far as the
      write reaches; a gap between the old end and `pos` reads as zero bytes. */
  function WriteAt(file: seq<Byte>, pos: nat, data: seq<Byte>): (r: seq<Byte>)
    ensures |r| == Max(|file|, pos + |data|)
    ensures r[pos..pos + |data|] == data
    ensures forall k :: 0 <= k < pos && k < |file| ==> r[k] == file[k]
    ensures forall k :: |file| <= k < pos ==> r[k] == 0
    ensures forall k :: pos + |data| <= k < |file| ==> r[k] == file[k]
  {
    var padded := if pos <= |file| then file else file + seq(pos - |file|, _ => 0 as Byte);
    var tail := if pos + |data| < |padded| then padded[pos + |data|..] else [];
    var r := padded[..pos] + data + tail;
    assert forall k :: pos + |data| <= k < |file| ==> r[k] == tail[k - pos - |data|];
    r
  }

  /** Writing at the end of the file appends. */
  lemma WriteAtEndAppends(file: seq<Byte>, data: seq<Byte>)
    ensures WriteAt(file, |file|, data) == file + data
  {
    var r := WriteAt(file, |file|, data);
    assert r[..|file|] == file;
    assert r == r[..|file|] + r[|file|..|file| + |data|];
  }

  /** A write inside the file (the encoder patching a box header it already wrote)
      keeps the file length. */
  lemma PatchKeepsLength(file: seq<Byte>, pos: nat, data: seq<Byte>)
    requires pos + |data| <= |file|
    ensures |WriteAt(file, pos, data)| == |file|
  {
  }

  /** Appending a chunk and then patching bytes that lie before it gives the same
      file as patching first and appending afterwards. */
  lemma {:induction false} PatchCommutesWithAppend(file: seq<Byte>, pos: nat, patch: seq<Byte>, chunk: seq<Byte>)
    requires pos + |patch| <= |file|
    ensures WriteAt(WriteAt(file, |file|, chunk), pos, patch)
         == WriteAt(WriteAt(file, pos, patch), |file|, chunk)
  {
    var a := WriteAt(WriteAt(file, |file|, chunk), pos, patch);
    var b := WriteAt(WriteAt(file, pos, patch), |file|, chunk);
    WriteAtEndAppends(file, chunk);
    PatchKeepsLength(file, pos, patch);
    WriteAtEndAppends(WriteAt(file, pos, patch), chunk);
    assert |a| == |b|;
    forall k | 0 <= k < |a| ensures a[k] == b[k] {
      if pos <= k < pos + |patch| {
        assert a[pos..pos + |patch|][k - pos] == patch[k - pos];
        assert WriteAt(file, pos, patch)[pos..pos + |patch|][k - pos] == patch[k - pos];
      }
    }
  }

  /** JxlOutputProcessor: the output file (its name, whether it is open, its
      contents and the current write position), the buffer lent to the encoder,
      and the finalized position the encoder last reported. */
  class JxlOutputProcessor {
    var fileName: string
    var isOpen: bool
    var contents: seq<Byte>
    var cursor: nat
    var output: seq<Byte>
    var finalizedPosition: nat

    /** The buffer never exceeds the largest size the processor hands out. */
    ghost predicate Valid()
      reads this
    {
      |output| <= MAX_CHUNK
    }

    constructor ()
      ensures Valid()
      ensures !isOpen && fileName == "" && contents == [] && cursor == 0
      ensures output == [] && finalizedPosition == 0
    {
      fileName, isOpen, contents, cursor := "", false, [], 0;
      output, finalizedPosition := [], 0;
    }

    /** SetOutputPath: open `path` for writing, which truncates it. Whether the file
        system lets it be written is `writable`. The result is true exactly when the
        file is open for writing; otherwise the file is left closed. */
    method SetOutputPath(path: string, writable: bool) returns (ok: bool)
      requires Valid() && !isOpen
      modifies this`fileName, this`isOpen, this`contents, this`cursor
      ensures Valid()
      ensures ok == writable && isOpen == ok && fileName == path
      ensures ok ==> contents == [] && cursor == 0
      ensures !ok ==> contents == old(contents) && cursor == old(cursor)
    {
      fileName := path;
      if writable {
        isOpen, contents, cursor := true, [], 0;
      }
      ok := isOpen;
    }

    /** CloseOutputFile: the contents stay on disk and the position returns to 0. */
    method CloseOutputFile()
      requires Valid()
      modifies this`isOpen, this`cursor
      ensures Valid() && !isOpen && cursor == 0
    {
      isOpen, cursor := false, 0;
    }

    /** GetBuffer: the encoder asks for `size` bytes and is granted at most
        MAX_CHUNK of them; the buffer grows, keeping its old bytes, only when it is
        shorter than the granted size, and never shrinks. */
    method GetBuffer(size: nat) returns (granted: nat)
      requires Valid()
      modifies this`output
      ensures Valid()
      ensures granted == Min(size, MAX_CHUNK)
      ensures |output| >= granted
      ensures |old(output)| < granted ==> |output| == granted && output[..|old(output)|] == old(output)
      ensures |old(output)| >= granted ==> output == old(output)
    {
      granted := Min(size, MAX_CHUNK);
      if |output| < granted {
        output := output + seq(granted - |output|, _ => 0 as Byte);
      }
    }

    /** ReleaseBuffer: on an open file, the first `written` buffer bytes are written
        at the current position, which advances by `written`; on a closed file
        nothing is written (a warning only). Either way the buffer is emptied. */
    method ReleaseBuffer(written: nat)
      requires Valid() && written <= |output|
      modifies this`contents, this`cursor, this`output
      ensures Valid() && output == []
      ensures old(isOpen) ==> contents == WriteAt(old(contents), old(cursor), old(output)[..written])
      ensures old(isOpen) ==> cursor == old(cursor) + written
      ensures !old(isOpen) ==> contents == old(contents) && cursor == old(cursor)
    {
      if isOpen {
        contents := WriteAt(contents, cursor, output[..written]);
        cursor := cursor + written;
      }
      output := [];
    }

    /** Seek: on an open file the position moves to `position` (possibly past the
        end) and the contents stay; on a closed file nothing changes. */
    method Seek(position: nat)
      requires Valid()
      modifies this`cursor
      ensures Valid()
      ensures isOpen ==> cursor == position
      ensures !isOpen ==> cursor == old(cursor)
    {
      if isOpen {
        cursor := position;
      }
    }

    /** SetFinalizedPosition: only the recorded position changes. */
    method SetFinalizedPosition(position: nat)
      requires Valid()
      modifies this`finalizedPosition
      ensures Valid() && finalizedPosition == position
    {
      finalizedPosition := position;
    }
  }

  /** How the encoder uses the callbacks to emit one chunk: acquire a buffer of the
      chunk's size, fill it, release it with the chunk's length. On an open file the
      chunk lands at the current position. */
  method EmitChunk(sink: JxlOutputProcessor, chunk: seq<Byte>)
    requires sink.Valid() && |chunk| <= MAX_CHUNK
    modifies sink
    ensures sink.Valid() && sink.output == []
    ensures sink.isOpen == old(sink.isOpen) && sink.finalizedPosition == old(sink.finalizedPosition)
    ensures old(sink.isOpen) ==> sink.contents == WriteAt(old(sink.contents), old(sink.cursor), chunk)
    ensures old(sink.isOpen) ==> sink.cursor == old(sink.cursor) + |chunk|
  {
    var granted := sink.GetBuffer(|chunk|);
    sink.output := chunk + sink.output[|chunk|..];
    assert sink.output[..|chunk|] == chunk;
    sink.ReleaseBuffer(|chunk|);
  }

  /** Two chunks emitted one after the other at the end of an open file are
      appended in order. */
  method EmitTwoChunks(sink: JxlOutputProcessor, first: seq<Byte>, second: seq<Byte>)
    requires sink.Valid() && sink.isOpen && sink.cursor == |sink.contents|
    requires |first| <= MAX_CHUNK && |second| <= MAX_CHUNK
    modifies sink
    ensures sink.Valid() && sink.isOpen
    ensures sink.contents == old(sink.contents) + first + second
    ensures sink.cursor == |sink.contents|
  {
    WriteAtEndAppends(sink.contents, first);
    EmitChunk(sink, first);
    WriteAtEndAppends(sink.contents, second);
    EmitChunk(sink, second);
  }
}
