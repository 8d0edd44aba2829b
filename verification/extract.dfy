/**
 * The extraction loop of `SaveUtil` (saveutil.cpp) as the imperative code it
 * is: `extractFile` advances a cursor through the decompressed buffer field
 * by field and writes one file, and `decompressToDirectory` calls it until it
 * returns false or throws. The destination directory is a `Sink` value that
 * each write replaces; both methods are proved against the functions of
 * `Container`.
 */
module Extraction {
  import opened ByteCodec
  import opened Container
  import opened Slices

  /**
   * One call of `extractFile` with the cursor at `offset`: the outcome, the
   * cursor afterwards, and the directory afterwards. A stop or an error
   * leaves the directory as it was; an extracted record is written to it.
   */
  method ExtractFile(data: seq<Byte>, offset: SizeT, dir: Sink)
    returns (outcome: Outcome, cursor: SizeT, written: Sink)
    requires offset <= |data| <= MAX_BUFFER
    ensures Step(outcome, cursor) == ParseRecord(data, offset)
    ensures written == if outcome.Extracted? then Store(dir, outcome.record) else dir
  {
    var size: SizeT := |data|;
    cursor, written := offset, dir;
    if CheckBufferOverflow(cursor, size, 4) {
      return Stop, cursor, written;
    }
    var nameLength := ToInt32(data, cursor);
    var nameLen := ToSizeT(nameLength);
    cursor := cursor + 4;
    if nameLen > 255 {
      return NameLengthError(nameLength), cursor, written;
    }
    if CheckBufferOverflow(cursor, size, nameLen * 2) {
      return Stop, cursor, written;
    }
    var filename;
    filename, cursor := ReadName(data, cursor, nameLen);
    if CheckBufferOverflow(cursor, size, 4) {
      return Stop, cursor, written;
    }
    var contentLength := ToInt32(data, cursor);
    var contentLen := ToSizeT(contentLength);
    cursor := cursor + 4;
    if CheckBufferOverflow(cursor, size, contentLen) {
      return Stop, cursor, written;
    }
    var content := data[cursor..cursor + contentLen];
    cursor := cursor + contentLen;
    // `QFile::open` fails when the path names the directory or its parent,
    // and `write` on a file that is not open returns -1.
    var isOpen := Writable(filename);
    var wrote: int := if isOpen then contentLen else -1;
    if wrote != contentLen {
      return WriteError(filename), cursor, written;
    }
    var rec := Record(filename, content);
    ParseRecordReads(data, offset, nameLen, contentLen);
    written := Store(dir, rec);
    outcome := Extracted(rec);
  }

  /**
   * The loop of `extractFile` that reads the name: `n` code units, one at a
   * time, from byte `start` on, leaving the cursor just past them.
   */
  method ReadName(data: seq<Byte>, start: SizeT, n: SizeT) returns (name: seq<CodeUnit>, cursor: SizeT)
    requires start + 2 * n <= |data| < SIZE_MOD
    ensures name == CodeUnitsAt(data, start, n) && cursor == start + 2 * n
  {
    name, cursor := [], start;
    var i: SizeT := 0;
    while i < n
      invariant i <= n
      invariant cursor == start + 2 * i
      invariant name == CodeUnitsAt(data, start, i)
    {
      CodeUnitsSnoc(data, start, i);
      name := name + [ToChar16(data, cursor)];
      cursor := cursor + 2;
      i := i + 1;
    }
  }

  /**
   * `decompressToDirectory` after decompression: the directory starts out
   * empty and `extractFile` is called until it returns false or throws. The
   * records written, how the loop ended and where the cursor stopped are
   * those `Decode` gives for the whole buffer, and the directory is what
   * writing those records in order leaves.
   */
  method DecompressToDirectory(data: seq<Byte>) returns (end: End, progress: SizeT, dir: Sink)
    requires |data| <= MAX_BUFFER
    ensures Decode(data, 0) == Decoded(dir.log, end, progress)
    ensures dir == StoreAll(EmptySink, dir.log)
  {
    dir, progress := EmptySink, 0;
    while true
      invariant progress <= |data|
      invariant dir == StoreAll(EmptySink, dir.log)
      invariant var rest := Decode(data, progress);
        Decode(data, 0) == Decoded(dir.log + rest.records, rest.end, rest.offset)
      decreases |data| - progress
    {
      ghost var log := dir.log;
      var outcome, cursor, written := ExtractFile(data, progress, dir);
      if !outcome.Extracted? {
        end := match outcome
          case NameLengthError(n) => Failed(n)
          case WriteError(name) => WriteFailed(name)
          case _ => Finished;
        assert log + [] == log;
        progress := cursor;
        return;
      }
      DecodeExtracted(data, progress, outcome.record, cursor);
      AppendAssoc(log, [outcome.record], Decode(data, cursor).records);
      assert (log + [outcome.record])[..|log|] == log;
      dir, progress := written, cursor;
    }
  }
}
