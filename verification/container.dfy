/**
 * The save container read by `SaveUtil::extractFile` (saveutil.cpp): after
 * gzip decompression, a save file is a run of records, each laid out as
 *
 *   int32 nameLength | nameLength UTF-16 code units | int32 contentLength | content
 *
 * with every number little-endian. This module gives the one-record step and
 * the whole-buffer decoder as functions that follow the source branch by
 * branch, a specification-only serializer for the same layout, and the
 * properties that connect the two.
 */
module Container {
  import opened ByteCodec
  import opened Slices

  /** File names longer than this many code units are rejected. */
  const MAX_NAME_LEN: nat := 255

  /**
   * The largest size of the decompressed buffer: a `std::string` holds fewer
   * than 2^63 bytes, so a negative length cast to `size_t` never fits.
   */
  const MAX_BUFFER: nat := 0x7FFF_FFFF_FFFF_FFFF

  /** One entry of the container: its name as read and its content bytes. */
  datatype Record = Record(name: seq<CodeUnit>, content: seq<Byte>)

  /**
   * A record that the container carries and extraction writes: its name has
   * at most 255 code units, its content length fits in an int32 field, and
   * its file name names a file in the destination directory.
   */
  predicate WellFormed(rec: Record) {
    |rec.name| <= MAX_NAME_LEN && |rec.content| < 0x8000_0000 && Writable(rec.name)
  }

  /**
   * What one call of `extractFile` does: it extracts a record (returns true),
   * stops (returns false), throws because the name length is out of range,
   * or throws because the file for the record could not be written.
   */
  datatype Outcome =
    | Extracted(record: Record)
    | Stop
    | NameLengthError(nameLen: Int32)
    | WriteError(name: seq<CodeUnit>)

  /** The outcome of one step and the cursor value it leaves behind. */
  datatype Step = Step(outcome: Outcome, next: nat)

  /** The `n` code units stored little-endian from byte `start` on. */
  function CodeUnitsAt(data: seq<Byte>, start: nat, n: nat): (r: seq<CodeUnit>)
    requires start + 2 * n <= |data|
    ensures |r| == n
    decreases n
  {
    if n == 0 then [] else [ToChar16(data, start)] + CodeUnitsAt(data, start + 2, n - 1)
  }

  // ---------------------------------------------------------------------
  // The name a record is saved under.
  // ---------------------------------------------------------------------

  /**
   * The name as `filename.data()` hands it on: a null-terminated string,
   * so the code units up to, not including, the first zero one.
   */
  function NullTerminated(units: seq<CodeUnit>): (r: seq<CodeUnit>)
    ensures |r| <= |units|
    ensures units != [] && units[0] != 0 ==> |r| > 0
  {
    if units == [] || units[0] == 0 then [] else [units[0]] + NullTerminated(units[1..])
  }

  /**
   * The null-terminated name is the longest prefix without a zero code
   * unit: a zero follows it unless it is the whole name.
   */
  lemma {:induction false} NullTerminatedPrefix(units: seq<CodeUnit>)
    ensures var r := NullTerminated(units);
      && r <= units
      && (forall i :: 0 <= i < |r| ==> r[i] != 0)
      && (|r| < |units| ==> units[|r|] == 0)
  {
    if units != [] && units[0] != 0 {
      NullTerminatedPrefix(units[1..]);
    }
  }

  /** A name without a zero code unit is used whole. */
  lemma {:induction false} NullTerminatedWhole(units: seq<CodeUnit>)
    requires forall i :: 0 <= i < |units| ==> units[i] != 0
    ensures NullTerminated(units) == units
  {
    if units != [] {
      NullTerminatedWhole(units[1..]);
    }
  }

  /** The byte-order mark, and the same mark with its two bytes exchanged. */
  const BOM: CodeUnit := 0xFEFF
  const SWAPPED_BOM: CodeUnit := 0xFFFE

  /** A code unit with its two bytes exchanged; only zero swaps to zero. */
  function Swap(c: CodeUnit): (r: CodeUnit)
    ensures r == 0 <==> c == 0
  {
    (c % 0x100) * 0x100 + c / 0x100
  }

  /** Exchanging the bytes twice gives the code unit back. */
  lemma SwapTwice(c: CodeUnit)
    ensures Swap(Swap(c)) == c
  {
  }

  /** Every code unit with its bytes exchanged. */
  function SwapAll(units: seq<CodeUnit>): (r: seq<CodeUnit>)
    ensures |r| == |units|
  {
    if units == [] then [] else [Swap(units[0])] + SwapAll(units[1..])
  }

  /** `SwapAll` exchanges the bytes of each code unit in place. */
  lemma {:induction false} SwapAllUnits(units: seq<CodeUnit>)
    ensures |SwapAll(units)| == |units|
    ensures forall i :: 0 <= i < |units| ==> SwapAll(units)[i] == Swap(units[i])
  {
    if units != [] {
      SwapAllUnits(units[1..]);
    }
  }

  /**
   * `QString::fromUtf16` on a string without a byte order given: a leading
   * byte-order mark is dropped; a leading swapped one is dropped too and
   * the code units after it are read with their bytes exchanged; without a
   * mark the units are taken as they are (the host order, little-endian).
   */
  function FromUtf16(units: seq<CodeUnit>): (r: seq<CodeUnit>)
    ensures |r| <= |units| <= |r| + 1
    ensures |r| < |units| <==> units != [] && (units[0] == BOM || units[0] == SWAPPED_BOM)
  {
    if units != [] && units[0] == BOM then units[1..]
    else if units != [] && units[0] == SWAPPED_BOM then SwapAll(units[1..])
    else units
  }

  /** The file name a record is written under (saveutil.cpp:96). */
  function FileName(name: seq<CodeUnit>): (r: seq<CodeUnit>)
    ensures |r| <= |name|
  {
    FromUtf16(NullTerminated(name))
  }

  /** A file name is no longer than the name read, and holds no zero code unit. */
  lemma FileNameNoZero(name: seq<CodeUnit>)
    ensures |FileName(name)| <= |name|
    ensures forall i :: 0 <= i < |FileName(name)| ==> FileName(name)[i] != 0
  {
    var units := NullTerminated(name);
    NullTerminatedPrefix(name);
    if units != [] && units[0] == SWAPPED_BOM {
      SwapAllUnits(units[1..]);
    }
  }

  /** A name without a byte-order mark in front is used up to its first zero code unit. */
  lemma FileNamePlain(name: seq<CodeUnit>)
    requires name == [] || (name[0] != BOM && name[0] != SWAPPED_BOM)
    ensures FileName(name) == NullTerminated(name)
  {
  }

  /** A leading byte-order mark is dropped from the name. */
  lemma FileNameMarked(rest: seq<CodeUnit>)
    ensures FileName([BOM] + rest) == NullTerminated(rest)
  {
    assert ([BOM] + rest)[1..] == rest;
  }

  /**
   * A leading swapped byte-order mark is dropped, and the rest of the name
   * is read with its bytes exchanged.
   */
  lemma FileNameSwapped(rest: seq<CodeUnit>)
    ensures FileName([SWAPPED_BOM] + rest) == SwapAll(NullTerminated(rest))
  {
    assert ([SWAPPED_BOM] + rest)[1..] == rest;
  }

  /** The code unit of `.`, which names a directory itself and, twice, its parent. */
  const DOT: CodeUnit := 0x2E

  /**
   * A name whose file can be created and written: `dir + separator + name`
   * names a file inside the directory, not the directory itself (an empty
   * file name) or its parent. For any other name `QFile::open` fails,
   * `write` returns -1 and `extractFile` throws.
   */
  predicate Writable(name: seq<CodeUnit>): (b: bool)
    ensures b ==> |FileName(name)| > 0
    ensures |FileName(name)| > 2 ==> b
  {
    var f := FileName(name);
    |f| > 2 || (|f| == 2 && (f[0] != DOT || f[1] != DOT)) || (|f| == 1 && f[0] != DOT)
  }

  /**
   * Names whose file cannot be written: an empty name, one that starts with
   * a zero code unit or is only a byte-order mark names the directory
   * itself; `.` names it too, and `..` its parent, with or without a mark.
   */
  lemma UnwritableNames(rest: seq<CodeUnit>)
    ensures !Writable([]) && !Writable([0] + rest) && !Writable([BOM])
    ensures !Writable([DOT]) && !Writable([DOT, DOT]) && !Writable([BOM, DOT, DOT])
    ensures Writable([DOT, DOT, DOT]) && Writable([BOM, 0x61])
  {
    assert ([0] + rest)[0] == 0;
    NullTerminatedWhole([DOT, DOT]);
    NullTerminatedWhole([BOM, DOT, DOT]);
    NullTerminatedWhole([DOT, DOT, DOT]);
    NullTerminatedWhole([BOM, 0x61]);
    assert [BOM, DOT, DOT][1..] == [DOT, DOT];
    assert [BOM, 0x61][1..] == [0x61];
  }

  /**
   * What one call of `extractFile` with the cursor at `offset` does, stated
   * on whole numbers: a field that does not fit in the rest of the buffer
   * ends the step with `Stop` at the cursor reached so far; a name length
   * outside 0..255 is an error once the cursor is past the length field; a
   * negative content length never fits; a record whose file cannot be
   * written is an error once the cursor is past its content.
   */
  function ParseRecord(data: seq<Byte>, offset: nat): (s: Step)
    requires offset <= |data|
    ensures offset <= s.next <= |data|
    ensures s.outcome.Extracted? ==> s.next >= offset + 8
  {
    if |data| - offset < 4 then Step(Stop, offset)
    else
      var n := ToInt32(data, offset);
      var nameAt := offset + 4;
      if n < 0 || n > MAX_NAME_LEN then Step(NameLengthError(n), nameAt)
      else if |data| - nameAt < 2 * n then Step(Stop, nameAt)
      else
        var lengthAt := nameAt + 2 * n;
        if |data| - lengthAt < 4 then Step(Stop, lengthAt)
        else
          var m := ToInt32(data, lengthAt);
          var contentAt := lengthAt + 4;
          if m < 0 || |data| - contentAt < m then Step(Stop, contentAt)
          else
            var name := CodeUnitsAt(data, nameAt, n);
            if !Writable(name) then Step(WriteError(name), contentAt + m)
            else Step(Extracted(Record(name, data[contentAt..contentAt + m])), contentAt + m)
  }

  // ---------------------------------------------------------------------
  // Specification-only serializer. The source has no working encoder
  // (`compressDirectory` is empty); these functions write the same layout
  // so that what the parser reads can be stated as a round trip.
  // ---------------------------------------------------------------------

  /** A name as consecutive little-endian code units. */
  function EncodeName(name: seq<CodeUnit>): (r: seq<Byte>)
    ensures |r| == 2 * |name|
  {
    if name == [] then [] else EncodeCodeUnit(name[0]) + EncodeName(name[1..])
  }

  /** One record in the container layout. */
  function EncodeRecord(rec: Record): (r: seq<Byte>)
    requires WellFormed(rec)
    ensures |r| == 8 + 2 * |rec.name| + |rec.content|
  {
    EncodeInt32(|rec.name|) + EncodeName(rec.name) + EncodeInt32(|rec.content|) + rec.content
  }

  /** A whole container: the records one after another, nothing in between. */
  function Serialize(records: seq<Record>): (r: seq<Byte>)
    requires forall rec <- records :: WellFormed(rec)
  {
    if records == [] then [] else EncodeRecord(records[0]) + Serialize(records[1..])
  }

  // ---------------------------------------------------------------------
  // The directory the records are written to.
  // ---------------------------------------------------------------------

  /**
   * The destination directory: the files written so far, by name, and the
   * records in the order they were written.
   */
  datatype Sink = Sink(files: map<seq<CodeUnit>, seq<Byte>>, log: seq<Record>)

  /** The directory as `decompressToDirectory` leaves it before extraction: empty. */
  const EmptySink: Sink := Sink(map[], [])

  /** Writing one record: its file is created or truncated and overwritten. */
  function Store(sink: Sink, rec: Record): (r: Sink)
    ensures r.files.Keys == sink.files.Keys + {FileName(rec.name)}
    ensures r.files[FileName(rec.name)] == rec.content
    ensures forall k :: k in sink.files && k != FileName(rec.name) ==> r.files[k] == sink.files[k]
    ensures r.log == sink.log + [rec]
  {
    Sink(sink.files[FileName(rec.name) := rec.content], sink.log + [rec])
  }

  /** Writing records in order. */
  function StoreAll(sink: Sink, records: seq<Record>): (r: Sink)
    ensures r.log == sink.log + records
  {
    if records == [] then sink
    else Store(StoreAll(sink, records[..|records| - 1]), records[|records| - 1])
  }

  // ---------------------------------------------------------------------
  // The whole buffer: `extractFile` called until it no longer returns true.
  // ---------------------------------------------------------------------

  /**
   * How extraction ended: the step returned false, or it threw because of a
   * name length or because a file could not be written.
   */
  datatype End = Finished | Failed(nameLen: Int32) | WriteFailed(name: seq<CodeUnit>)

  /** The records extracted, how extraction ended and the final cursor. */
  datatype Decoded = Decoded(records: seq<Record>, end: End, offset: nat)

  /** The records of the buffer from `offset` on, as the extraction loop reads them. */
  function Decode(data: seq<Byte>, offset: nat): (d: Decoded)
    requires offset <= |data|
    ensures offset + 8 * |d.records| <= d.offset <= |data|
    decreases |data| - offset
  {
    var s := ParseRecord(data, offset);
    match s.outcome
    case Extracted(rec) =>
      var rest := Decode(data, s.next);
      Decoded([rec] + rest.records, rest.end, rest.offset)
    case Stop => Decoded([], Finished, s.next)
    case NameLengthError(n) => Decoded([], Failed(n), s.next)
    case WriteError(name) => Decoded([], WriteFailed(name), s.next)
  }

  // ---------------------------------------------------------------------
  // Names: reading the code units undoes writing them, and the other way
  // round.
  // ---------------------------------------------------------------------

  /** The bytes of the `i`-th code unit of an encoded name. */
  lemma {:induction false} EncodeNameAt(name: seq<CodeUnit>, i: nat)
    requires i < |name|
    ensures EncodeName(name)[2 * i..2 * i + 2] == EncodeCodeUnit(name[i])
  {
    if i > 0 {
      EncodeNameAt(name[1..], i - 1);
      var tail := EncodeName(name[1..]);
      assert EncodeName(name) == EncodeCodeUnit(name[0]) + tail;
      assert EncodeName(name)[2 * i..2 * i + 2] == tail[2 * (i - 1)..2 * (i - 1) + 2];
    }
  }

  /** Reading the code units of an encoded name gives the name back. */
  lemma CodeUnitsOfEncodedName(data: seq<Byte>, start: nat, name: seq<CodeUnit>)
    requires start + 2 * |name| <= |data|
    requires data[start..start + 2 * |name|] == EncodeName(name)
    ensures CodeUnitsAt(data, start, |name|) == name
  {
    forall i | 0 <= i < |name|
      ensures CodeUnitsAt(data, start, |name|)[i] == name[i]
    {
      EncodeNameAt(name, i);
      SliceOfSlice(data, start, EncodeName(name), 2 * i, 2 * i + 2);
      ReadEncodedChar16(data, start + 2 * i, name[i]);
      CodeUnitAt(data, start, |name|, i);
    }
  }

  /** The `i`-th code unit read is the one at twice `i` bytes from the start. */
  lemma {:induction false} CodeUnitAt(data: seq<Byte>, start: nat, n: nat, i: nat)
    requires start + 2 * n <= |data| && i < n
    ensures CodeUnitsAt(data, start, n)[i] == ToChar16(data, start + 2 * i)
    decreases n
  {
    if i > 0 {
      CodeUnitAt(data, start + 2, n - 1, i - 1);
    }
  }

  /** Reading one more code unit appends the one right after those read so far. */
  lemma {:induction false} CodeUnitsSnoc(data: seq<Byte>, start: nat, n: nat)
    requires start + 2 * (n + 1) <= |data|
    ensures CodeUnitsAt(data, start, n + 1) == CodeUnitsAt(data, start, n) + [ToChar16(data, start + 2 * n)]
    decreases n
  {
    if n > 0 {
      CodeUnitsSnoc(data, start + 2, n - 1);
      AppendAssoc([ToChar16(data, start)], CodeUnitsAt(data, start + 2, n - 1), [ToChar16(data, start + 2 * n)]);
    }
  }

  /** Writing the code units read from a buffer gives the bytes they came from. */
  lemma {:induction false} EncodedCodeUnits(data: seq<Byte>, start: nat, n: nat)
    requires start + 2 * n <= |data|
    ensures EncodeName(CodeUnitsAt(data, start, n)) == data[start..start + 2 * n]
    decreases n
  {
    if n > 0 {
      var units := CodeUnitsAt(data, start, n);
      assert units[1..] == CodeUnitsAt(data, start + 2, n - 1);
      EncodedCodeUnits(data, start + 2, n - 1);
      EncodeToChar16(data, start);
      assert data[start..start + 2 * n] == data[start..start + 2] + data[start + 2..start + 2 * n];
    }
  }

  // ---------------------------------------------------------------------
  // One record.
  // ---------------------------------------------------------------------

  /**
   * The step extracts a record only when both lengths are in range and the
   * whole record is present; the name is then the `n` code units after the
   * first length and the content the `m` bytes after the second.
   */
  lemma ParseRecordExtracted(data: seq<Byte>, offset: nat)
    requires offset <= |data|
    requires ParseRecord(data, offset).outcome.Extracted?
    ensures var n := ToInt32(data, offset);
      && 0 <= n <= MAX_NAME_LEN && offset + 8 + 2 * n <= |data|
      && var m := ToInt32(data, offset + 4 + 2 * n);
      && 0 <= m && offset + 8 + 2 * n + m <= |data|
      && Writable(CodeUnitsAt(data, offset + 4, n))
      && ParseRecord(data, offset)
         == Step(Extracted(Record(CodeUnitsAt(data, offset + 4, n),
                                  data[offset + 8 + 2 * n..offset + 8 + 2 * n + m])),
                 offset + 8 + 2 * n + m)
  {
  }

  /**
   * The step leaves the cursor where it was exactly when fewer than four
   * bytes remain; in every other case it has moved past the first length.
   */
  lemma ParseRecordStays(data: seq<Byte>, offset: nat)
    requires offset <= |data|
    ensures ParseRecord(data, offset).next == offset <==> |data| - offset < 4
    ensures |data| - offset < 4 ==> ParseRecord(data, offset).outcome == Stop
    ensures |data| - offset >= 4 ==> ParseRecord(data, offset).next >= offset + 4
  {
  }

  /**
   * The step throws a name-length error exactly when a name length is
   * there and outside 0..255, negative ones included; the cursor is then
   * just past it.
   */
  lemma ParseRecordFails(data: seq<Byte>, offset: nat)
    requires offset <= |data|
    ensures ParseRecord(data, offset).outcome.NameLengthError?
        <==> offset + 4 <= |data| && !(0 <= ToInt32(data, offset) <= MAX_NAME_LEN)
    ensures ParseRecord(data, offset).outcome.NameLengthError?
        ==> ParseRecord(data, offset)
            == Step(NameLengthError(ToInt32(data, offset)), offset + 4)
  {
  }

  /**
   * A negative content length after a name that fits stops the step
   * without an error, with the cursor past the content length field.
   */
  lemma ParseRecordNegativeContent(data: seq<Byte>, offset: nat, n: nat)
    requires n <= MAX_NAME_LEN && offset + 8 + 2 * n <= |data|
    requires ToInt32(data, offset) == n && ToInt32(data, offset + 4 + 2 * n) < 0
    ensures ParseRecord(data, offset) == Step(Stop, offset + 8 + 2 * n)
  {
  }

  /**
   * Conversely, lengths `n` and `m` in range whose record fits in the
   * buffer, with a name whose file can be written, make the step extract
   * that record.
   */
  lemma ParseRecordReads(data: seq<Byte>, offset: nat, n: nat, m: nat)
    requires n <= MAX_NAME_LEN && offset + 8 + 2 * n + m <= |data|
    requires ToInt32(data, offset) == n && ToInt32(data, offset + 4 + 2 * n) == m
    requires Writable(CodeUnitsAt(data, offset + 4, n))
    ensures ParseRecord(data, offset)
         == Step(Extracted(Record(CodeUnitsAt(data, offset + 4, n),
                                  data[offset + 8 + 2 * n..offset + 8 + 2 * n + m])),
                 offset + 8 + 2 * n + m)
  {
  }

  /**
   * A complete record whose file cannot be written makes the step throw,
   * with the cursor already past the record's content.
   */
  lemma ParseRecordUnwritable(data: seq<Byte>, offset: nat, n: nat, m: nat)
    requires n <= MAX_NAME_LEN && offset + 8 + 2 * n + m <= |data|
    requires ToInt32(data, offset) == n && ToInt32(data, offset + 4 + 2 * n) == m
    requires !Writable(CodeUnitsAt(data, offset + 4, n))
    ensures ParseRecord(data, offset)
         == Step(WriteError(CodeUnitsAt(data, offset + 4, n)), offset + 8 + 2 * n + m)
  {
  }

  /** The encoding of a record, field by field. */
  lemma EncodeRecordFields(name: seq<CodeUnit>, content: seq<Byte>)
    requires WellFormed(Record(name, content))
    ensures EncodeRecord(Record(name, content))
         == EncodeInt32(|name|) + EncodeName(name) + EncodeInt32(|content|) + content
  {
  }

  /**
   * The bytes from `offset` on, holding the encodings of two lengths `n`
   * and `m` where the step reads them, are the encoding of the record the
   * step builds.
   */
  lemma RecordBytes(data: seq<Byte>, offset: nat, n: nat, m: nat)
    requires n <= MAX_NAME_LEN && m < 0x8000_0000
    requires offset + 8 + 2 * n + m <= |data|
    requires Writable(CodeUnitsAt(data, offset + 4, n))
    requires data[offset..offset + 4] == EncodeInt32(n)
    requires data[offset + 4 + 2 * n..offset + 4 + 2 * n + 4] == EncodeInt32(m)
    ensures data[offset..offset + 8 + 2 * n + m]
         == EncodeRecord(Record(CodeUnitsAt(data, offset + 4, n), data[offset + 8 + 2 * n..offset + 8 + 2 * n + m]))
  {
    var nameAt, lengthAt, contentAt := offset + 4, offset + 4 + 2 * n, offset + 8 + 2 * n;
    var name, content := CodeUnitsAt(data, nameAt, n), data[contentAt..offset + 8 + 2 * n + m];
    EncodedCodeUnits(data, nameAt, n);
    Fields4(data, offset, nameAt, lengthAt, contentAt, offset + 8 + 2 * n + m,
            EncodeInt32(n), EncodeName(name), EncodeInt32(m), content);
    EncodeRecordFields(name, content);
  }

  /** `RecordBytes` with the two lengths given as what the reader makes of them. */
  lemma ReadRecordBytes(data: seq<Byte>, offset: nat, n: nat, m: nat)
    requires n <= MAX_NAME_LEN && m < 0x8000_0000
    requires offset + 8 + 2 * n + m <= |data|
    requires Writable(CodeUnitsAt(data, offset + 4, n))
    requires ToInt32(data, offset) == n && ToInt32(data, offset + 4 + 2 * n) == m
    ensures var rec := Record(CodeUnitsAt(data, offset + 4, n),
                              data[offset + 8 + 2 * n..offset + 8 + 2 * n + m]);
      && WellFormed(rec)
      && offset + 8 + 2 * n + m == offset + |EncodeRecord(rec)|
      && data[offset..offset + 8 + 2 * n + m] == EncodeRecord(rec)
  {
    EncodeToInt32(data, offset);
    EncodeToInt32(data, offset + 4 + 2 * n);
    RecordBytes(data, offset, n, m);
  }

  /**
   * Whatever the step extracts is a record that the layout can hold, and
   * the bytes it consumed are exactly that record's encoding.
   */
  lemma ParseRecordSound(data: seq<Byte>, offset: nat)
    requires offset <= |data|
    requires ParseRecord(data, offset).outcome.Extracted?
    ensures var s := ParseRecord(data, offset);
      && WellFormed(s.outcome.record)
      && s.next == offset + |EncodeRecord(s.outcome.record)|
      && HoldsRecord(data, offset, s.outcome.record)
  {
    ParseRecordExtracted(data, offset);
    var n := ToInt32(data, offset);
    var m := ToInt32(data, offset + 4 + 2 * n);
    ReadRecordBytes(data, offset, n, m);
    var s := ParseRecord(data, offset);
    assert s.next == offset + 8 + 2 * n + m;
    assert s.outcome.record == Record(CodeUnitsAt(data, offset + 4, n),
                                      data[offset + 8 + 2 * n..offset + 8 + 2 * n + m]);
  }

  /** The four fields of an encoded record, as slices of its encoding. */
  lemma EncodeRecordParts(rec: Record)
    requires WellFormed(rec)
    ensures var e, n, m := EncodeRecord(rec), |rec.name|, |rec.content|;
      && e[0..4] == EncodeInt32(n)
      && e[4..4 + 2 * n] == EncodeName(rec.name)
      && e[4 + 2 * n..4 + 2 * n + 4] == EncodeInt32(m)
      && e[8 + 2 * n..8 + 2 * n + m] == rec.content
  {
    var a, b := EncodeInt32(|rec.name|), EncodeName(rec.name);
    var c, d := EncodeInt32(|rec.content|), rec.content;
    assert EncodeRecord(rec) == a + b + c + d;
  }

  /** A buffer holding the encoding of `rec` at `offset`. */
  ghost predicate HoldsRecord(data: seq<Byte>, offset: nat, rec: Record)
    requires WellFormed(rec)
  {
    HoldsAt(data, offset, EncodeRecord(rec))
  }

  /** Its first field reads as the length of the name. */
  lemma HeldNameLength(data: seq<Byte>, offset: nat, rec: Record)
    requires WellFormed(rec) && HoldsRecord(data, offset, rec)
    ensures ToInt32(data, offset) == |rec.name|
  {
    EncodeRecordParts(rec);
    SliceOfSlice(data, offset, EncodeRecord(rec), 0, 4);
    ReadEncodedInt32(data, offset, |rec.name|);
  }

  /** Its second field reads as the name. */
  lemma HeldName(data: seq<Byte>, offset: nat, rec: Record)
    requires WellFormed(rec) && HoldsRecord(data, offset, rec)
    ensures CodeUnitsAt(data, offset + 4, |rec.name|) == rec.name
  {
    var n := |rec.name|;
    EncodeRecordParts(rec);
    SliceOfSlice(data, offset, EncodeRecord(rec), 4, 4 + 2 * n);
    CodeUnitsOfEncodedName(data, offset + 4, rec.name);
  }

  /** Its third field reads as the length of the content. */
  lemma HeldContentLength(data: seq<Byte>, offset: nat, rec: Record)
    requires WellFormed(rec) && HoldsRecord(data, offset, rec)
    ensures ToInt32(data, offset + 4 + 2 * |rec.name|) == |rec.content|
  {
    var n := |rec.name|;
    EncodeRecordParts(rec);
    SliceOfSlice(data, offset, EncodeRecord(rec), 4 + 2 * n, 4 + 2 * n + 4);
    ReadEncodedInt32(data, offset + 4 + 2 * n, |rec.content|);
  }

  /** Its last field is the content. */
  lemma HeldContent(data: seq<Byte>, offset: nat, rec: Record)
    requires WellFormed(rec) && HoldsRecord(data, offset, rec)
    ensures data[offset + 8 + 2 * |rec.name|..offset + 8 + 2 * |rec.name| + |rec.content|]
         == rec.content
  {
    var n, m := |rec.name|, |rec.content|;
    EncodeRecordParts(rec);
    SliceOfSlice(data, offset, EncodeRecord(rec), 8 + 2 * n, 8 + 2 * n + m);
  }

  /** A buffer that holds the encoding of a record at `offset` yields that record. */
  lemma ParseRecordComplete(data: seq<Byte>, offset: nat, rec: Record)
    requires WellFormed(rec) && HoldsRecord(data, offset, rec)
    ensures ParseRecord(data, offset) == Step(Extracted(rec), offset + |EncodeRecord(rec)|)
  {
    var n, m := |rec.name|, |rec.content|;
    HeldNameLength(data, offset, rec);
    HeldContentLength(data, offset, rec);
    HeldName(data, offset, rec);
    ParseRecordReads(data, offset, n, m);
    HeldContent(data, offset, rec);
  }

  /** A buffer that ends inside the encoding of `rec`. */
  predicate HoldsPrefix(data: seq<Byte>, offset: nat, rec: Record)
    requires WellFormed(rec)
  {
    offset <= |data| < offset + |EncodeRecord(rec)|
    && data[offset..] == EncodeRecord(rec)[..|data| - offset]
  }

  /** A cut record still shows its name length when four bytes of it are there. */
  lemma PrefixNameLength(data: seq<Byte>, offset: nat, rec: Record)
    requires WellFormed(rec) && HoldsPrefix(data, offset, rec)
    requires offset + 4 <= |data|
    ensures ToInt32(data, offset) == |rec.name|
  {
    EncodeRecordParts(rec);
    PrefixSlice(data, offset, EncodeRecord(rec), 0, 4);
    ReadEncodedInt32(data, offset, |rec.name|);
  }

  /** A cut record still shows its content length when its name is there in full. */
  lemma PrefixContentLength(data: seq<Byte>, offset: nat, rec: Record)
    requires WellFormed(rec) && HoldsPrefix(data, offset, rec)
    requires offset + 8 + 2 * |rec.name| <= |data|
    ensures ToInt32(data, offset + 4 + 2 * |rec.name|) == |rec.content|
  {
    var n := |rec.name|;
    EncodeRecordParts(rec);
    PrefixSlice(data, offset, EncodeRecord(rec), 4 + 2 * n, 4 + 2 * n + 4);
    ReadEncodedInt32(data, offset + 4 + 2 * n, |rec.content|);
  }

  /**
   * A buffer that ends inside a record stops the step without an error:
   * the partial record is dropped silently.
   */
  lemma ParseRecordTruncated(data: seq<Byte>, offset: nat, rec: Record)
    requires WellFormed(rec) && HoldsPrefix(data, offset, rec)
    ensures ParseRecord(data, offset).outcome == Stop
  {
    if offset + 4 <= |data| {
      PrefixNameLength(data, offset, rec);
      if offset + 8 + 2 * |rec.name| <= |data| {
        PrefixContentLength(data, offset, rec);
      }
    }
  }

  // ---------------------------------------------------------------------
  // The whole buffer.
  // ---------------------------------------------------------------------

  /** The encodings of the records, in order. */
  function Encodings(records: seq<Record>): (r: seq<seq<Byte>>)
    requires forall rec <- records :: WellFormed(rec)
    ensures |r| == |records|
  {
    if records == [] then [] else [EncodeRecord(records[0])] + Encodings(records[1..])
  }

  /** A container is its records' encodings one after another. */
  lemma {:induction false} SerializeFlatten(records: seq<Record>)
    requires forall rec <- records :: WellFormed(rec)
    ensures Serialize(records) == Flatten(Encodings(records))
    decreases |records|
  {
    if records != [] {
      var parts := Encodings(records);
      SerializeFlatten(records[1..]);
      assert parts[0] == EncodeRecord(records[0]) && parts[1..] == Encodings(records[1..]);
    }
  }

  /** A buffer holding the encodings of `records`, one after another, from `offset` on. */
  ghost predicate HoldsRecords(data: seq<Byte>, offset: nat, records: seq<Record>) {
    && (forall rec <- records :: WellFormed(rec))
    && HoldsParts(data, offset, Encodings(records))
  }

  /** Records held one after another are, together, the container's bytes. */
  lemma HoldsRecordsSerialized(data: seq<Byte>, offset: nat, records: seq<Record>)
    requires forall rec <- records :: WellFormed(rec)
    ensures HoldsRecords(data, offset, records) <==> HoldsAt(data, offset, Serialize(records))
  {
    SerializeFlatten(records);
    HoldsPartsFlatten(data, offset, Encodings(records));
  }

  /** A buffer holding records holds the first of them, and the rest right after it. */
  lemma HoldsRecordsFirst(data: seq<Byte>, offset: nat, records: seq<Record>)
    requires records != [] && HoldsRecords(data, offset, records)
    ensures WellFormed(records[0]) && HoldsRecord(data, offset, records[0])
    ensures HoldsRecords(data, offset + |EncodeRecord(records[0])|, records[1..])
  {
    var e := EncodeRecord(records[0]);
    assert Encodings(records) == [e] + Encodings(records[1..]);
    HoldsPartsCons(data, offset, e, Encodings(records[1..]));
  }

  /** A record followed by more records held right after it. */
  lemma HoldsRecordsPrepend(data: seq<Byte>, offset: nat, next: nat, records: seq<Record>)
    requires records != [] && WellFormed(records[0]) && HoldsRecord(data, offset, records[0])
    requires next == offset + |EncodeRecord(records[0])| && HoldsRecords(data, next, records[1..])
    ensures HoldsRecords(data, offset, records)
  {
    var e := EncodeRecord(records[0]);
    assert records == [records[0]] + records[1..];
    assert Encodings(records) == [e] + Encodings(records[1..]);
    HoldsPartsCons(data, offset, e, Encodings(records[1..]));
  }

  /** A container is its first record's encoding followed by the rest of it. */
  lemma SerializeFirst(records: seq<Record>)
    requires records != [] && forall rec <- records :: WellFormed(rec)
    ensures Serialize(records) == EncodeRecord(records[0]) + Serialize(records[1..])
  {
  }

  /** A step that extracts a record is followed by the decoding of the rest. */
  lemma DecodeExtracted(data: seq<Byte>, offset: nat, rec: Record, next: nat)
    requires offset <= |data| && ParseRecord(data, offset) == Step(Extracted(rec), next)
    ensures var rest := Decode(data, next);
      Decode(data, offset) == Decoded([rec] + rest.records, rest.end, rest.offset)
  {
  }

  /** Extraction steps from `offset` yield `records`, one per step, and leave the cursor at `end`. */
  ghost predicate Extracts(data: seq<Byte>, offset: nat, records: seq<Record>, end: nat)
    decreases |records|
  {
    && offset <= |data|
    && if records == [] then offset == end
       else
         var s := ParseRecord(data, offset);
         s.outcome == Extracted(records[0]) && Extracts(data, s.next, records[1..], end)
  }

  /** Records held one after another from the cursor on are extracted, step by step. */
  lemma {:induction false} HeldExtracted(data: seq<Byte>, offset: nat, records: seq<Record>, end: nat)
    requires HoldsRecords(data, offset, records) && end == offset + |Serialize(records)|
    ensures Extracts(data, offset, records, end)
    decreases |records|
  {
    if records == [] {
      HoldsNoRecords(data, offset);
    } else {
      var next := offset + |EncodeRecord(records[0])|;
      HoldsRecordsFirst(data, offset, records);
      SerializeLength(records);
      HeldExtracted(data, next, records[1..], end);
      ParseRecordComplete(data, offset, records[0]);
      ExtractsCons(data, offset, next, records, end);
    }
  }

  /** A step that extracts the first record, followed by steps that extract the rest. */
  lemma ExtractsCons(data: seq<Byte>, offset: nat, next: nat, records: seq<Record>, end: nat)
    requires records != [] && offset <= |data|
    requires ParseRecord(data, offset) == Step(Extracted(records[0]), next)
    requires Extracts(data, next, records[1..], end)
    ensures Extracts(data, offset, records, end)
  {
  }

  /** Holding no records still puts the cursor within the buffer. */
  lemma HoldsNoRecords(data: seq<Byte>, offset: nat)
    requires HoldsRecords(data, offset, [])
    ensures offset <= |data|
  {
  }

  /** Records extracted step by step come first in the decoding, followed by the decoding after them. */
  lemma {:induction false} DecodeAfterExtracts(data: seq<Byte>, offset: nat, records: seq<Record>, end: nat)
    requires Extracts(data, offset, records, end)
    ensures end <= |data|
    ensures var rest := Decode(data, end);
      Decode(data, offset) == Decoded(records + rest.records, rest.end, rest.offset)
    decreases |records|
  {
    if records == [] {
      assert records + Decode(data, offset).records == Decode(data, offset).records;
    } else {
      var next := ParseRecord(data, offset).next;
      DecodeAfterExtracts(data, next, records[1..], end);
      DecodeExtractedThen(data, offset, next, records[0], records[1..], Decode(data, end));
      assert records == [records[0]] + records[1..];
    }
  }

  /** One extraction step in front of a decoding adds its record in front of the records. */
  lemma DecodeExtractedThen(data: seq<Byte>, offset: nat, next: nat, rec: Record, rest: seq<Record>, tail: Decoded)
    requires offset <= |data|
    requires ParseRecord(data, offset) == Step(Extracted(rec), next)
    requires Decode(data, next) == Decoded(rest + tail.records, tail.end, tail.offset)
    ensures Decode(data, offset) == Decoded(([rec] + rest) + tail.records, tail.end, tail.offset)
  {
    DecodeExtracted(data, offset, rec, next);
    AppendAssoc([rec], rest, tail.records);
  }

  /**
   * Well-formed records at the cursor are extracted one by one, in order,
   * before whatever follows them is looked at.
   */
  lemma DecodeAfterRecords(data: seq<Byte>, offset: nat, records: seq<Record>, end: nat)
    requires HoldsRecords(data, offset, records) && end == offset + |Serialize(records)|
    ensures end <= |data|
    ensures var rest := Decode(data, end);
      Decode(data, offset) == Decoded(records + rest.records, rest.end, rest.offset)
  {
    HeldExtracted(data, offset, records, end);
    DecodeAfterExtracts(data, offset, records, end);
  }

  /** A step that stops ends the decoding where the step left the cursor. */
  lemma DecodeStops(data: seq<Byte>, offset: nat)
    requires offset <= |data| && ParseRecord(data, offset).outcome == Stop
    ensures Decode(data, offset) == Decoded([], Finished, ParseRecord(data, offset).next)
  {
  }

  /** A name length out of range makes the step fail just past the length field. */
  lemma DecodeBadLengthAt(data: seq<Byte>, offset: nat)
    requires offset + 4 <= |data| && !(0 <= ToInt32(data, offset) <= MAX_NAME_LEN)
    ensures Decode(data, offset) == Decoded([], Failed(ToInt32(data, offset)), offset + 4)
  {
  }

  /** Records held from the start, then a step that stops: exactly those records. */
  lemma DecodeStopsAfter(data: seq<Byte>, records: seq<Record>, at: nat)
    requires HoldsRecords(data, 0, records) && at == |Serialize(records)|
    requires at <= |data| && ParseRecord(data, at).outcome == Stop
    ensures Decode(data, 0) == Decoded(records, Finished, ParseRecord(data, at).next)
  {
    DecodeAfterRecords(data, 0, records, at);
    DecodeStops(data, at);
    assert records + [] == records;
  }

  /** Records held from the start, then a bad name length: those records and the error. */
  lemma DecodeFailsAfter(data: seq<Byte>, records: seq<Record>, at: nat)
    requires HoldsRecords(data, 0, records) && at == |Serialize(records)|
    requires at + 4 <= |data| && !(0 <= ToInt32(data, at) <= MAX_NAME_LEN)
    ensures Decode(data, 0) == Decoded(records, Failed(ToInt32(data, at)), at + 4)
  {
    DecodeAfterRecords(data, 0, records, at);
    DecodeBadLengthAt(data, at);
    assert records + [] == records;
  }

  /** Round trip: a serialized container decodes to exactly its records, in order. */
  lemma DecodeSerialized(records: seq<Record>)
    requires forall rec <- records :: WellFormed(rec)
    ensures Decode(Serialize(records), 0) == Decoded(records, Finished, |Serialize(records)|)
  {
    var data := Serialize(records);
    HoldsLeft(data, []);
    assert data + [] == data;
    HoldsRecordsSerialized(data, 0, records);
    DecodeStopsAfter(data, records, |data|);
  }

  /**
   * A container cut inside its last record decodes, without an error, to the
   * records before the cut.
   */
  lemma DecodeTruncated(records: seq<Record>, last: Record, k: nat)
    requires forall rec <- records :: WellFormed(rec)
    requires WellFormed(last) && k < |EncodeRecord(last)|
    ensures var d := Decode(Serialize(records) + EncodeRecord(last)[..k], 0);
      d.records == records && d.end == Finished
  {
    var s, tail := Serialize(records), EncodeRecord(last)[..k];
    var data := s + tail;
    HoldsLeft(s, tail);
    HoldsRecordsSerialized(data, 0, records);
    ConcatSlices(s, tail);
    ParseRecordTruncated(data, |s|, last);
    DecodeStopsAfter(data, records, |s|);
  }

  /**
   * A name length outside 0..255 after well-formed records aborts extraction
   * with the cursor just past that length field; the records before it have
   * been extracted.
   */
  lemma DecodeBadNameLength(records: seq<Record>, tail: seq<Byte>)
    requires forall rec <- records :: WellFormed(rec)
    requires |tail| >= 4 && !(0 <= ToInt32(tail, 0) <= MAX_NAME_LEN)
    ensures Decode(Serialize(records) + tail, 0)
         == Decoded(records, Failed(ToInt32(tail, 0)), |Serialize(records)| + 4)
  {
    var s := Serialize(records);
    var data := s + tail;
    HoldsLeft(s, tail);
    HoldsRecordsSerialized(data, 0, records);
    ToInt32After(s, tail);
    DecodeFailsAfter(data, records, |s|);
  }

  /**
   * Everything extracted is a well-formed record, held in the buffer one
   * after another from the cursor on.
   */
  lemma {:induction false} ExtractsHeld(data: seq<Byte>, offset: nat, records: seq<Record>, end: nat)
    requires Extracts(data, offset, records, end)
    ensures HoldsRecords(data, offset, records) && end == offset + |Serialize(records)|
    decreases |records|
  {
    if records != [] {
      var next := ParseRecord(data, offset).next;
      ParseRecordSound(data, offset);
      ExtractsHeld(data, next, records[1..], end);
      HoldsRecordsThen(data, offset, next, records, end);
    }
  }

  /** A record held at the cursor, followed by more records held right after it. */
  lemma HoldsRecordsThen(data: seq<Byte>, offset: nat, next: nat, records: seq<Record>, end: nat)
    requires records != [] && WellFormed(records[0]) && HoldsRecord(data, offset, records[0])
    requires next == offset + |EncodeRecord(records[0])|
    requires HoldsRecords(data, next, records[1..]) && end == next + |Serialize(records[1..])|
    ensures HoldsRecords(data, offset, records) && end == offset + |Serialize(records)|
  {
    HoldsRecordsPrepend(data, offset, next, records);
    SerializeLength(records);
  }

  /** A container is as long as its first record's encoding and the rest together. */
  lemma SerializeLength(records: seq<Record>)
    requires records != [] && forall rec <- records :: WellFormed(rec)
    ensures |Serialize(records)| == |EncodeRecord(records[0])| + |Serialize(records[1..])|
  {
    SerializeFirst(records);
  }

  /** The records the loop decodes are extracted step by step, ending at some cursor. */
  lemma {:induction false} DecodeExtracts(data: seq<Byte>, offset: nat)
    requires offset <= |data|
    ensures exists end :: Extracts(data, offset, Decode(data, offset).records, end)
    decreases |data| - offset
  {
    var s := ParseRecord(data, offset);
    if s.outcome.Extracted? {
      DecodeExtracted(data, offset, s.outcome.record, s.next);
      DecodeExtracts(data, s.next);
      var end :| Extracts(data, s.next, Decode(data, s.next).records, end);
      var records := Decode(data, offset).records;
      assert records[1..] == Decode(data, s.next).records;
      assert Extracts(data, offset, records, end);
    } else {
      assert Decode(data, offset).records == [];
      assert Extracts(data, offset, [], offset);
    }
  }

  /** The records the loop decodes are held one after another from the cursor on. */
  lemma DecodeHolds(data: seq<Byte>, offset: nat)
    requires offset <= |data|
    ensures HoldsRecords(data, offset, Decode(data, offset).records)
  {
    DecodeExtracts(data, offset);
    var end :| Extracts(data, offset, Decode(data, offset).records, end);
    ExtractsHeld(data, offset, Decode(data, offset).records, end);
  }

  /**
   * Everything extracted is a well-formed record, and the records extracted
   * are, serialized, exactly the bytes at the cursor.
   */
  lemma DecodeSound(data: seq<Byte>, offset: nat)
    requires offset <= |data|
    ensures var d := Decode(data, offset);
      && (forall rec <- d.records :: WellFormed(rec))
      && HoldsAt(data, offset, Serialize(d.records))
  {
    DecodeHolds(data, offset);
    HoldsRecordsSerialized(data, offset, Decode(data, offset).records);
  }

  // ---------------------------------------------------------------------
  // The directory after a run of writes.
  // ---------------------------------------------------------------------

  /** No record after the `i`-th is saved under the same file name. */
  predicate SavedLast(records: seq<Record>, i: nat)
    requires i < |records|
  {
    forall j :: i < j < |records| ==> FileName(records[j].name) != FileName(records[i].name)
  }

  /** After writing records in order, the directory holds one file per name written. */
  lemma {:induction false} StoreAllKeys(sink: Sink, records: seq<Record>)
    ensures StoreAll(sink, records).files.Keys == sink.files.Keys + FileNames(records)
    decreases |records|
  {
    if records != [] {
      var init, last := records[..|records| - 1], records[|records| - 1];
      StoreAllKeys(sink, init);
      FileNamesLast(records);
    }
  }

  /** The names a run of records is saved under. */
  ghost function FileNames(records: seq<Record>): set<seq<CodeUnit>> {
    set rec | rec in records :: FileName(rec.name)
  }

  /** The names of a run of records: those of all but the last, and the last one's. */
  lemma FileNamesLast(records: seq<Record>)
    requires records != []
    ensures FileNames(records)
         == FileNames(records[..|records| - 1]) + {FileName(records[|records| - 1].name)}
  {
    var init, last := records[..|records| - 1], records[|records| - 1];
    assert records == init + [last];
  }

  /**
   * Each file holds the content of the last record saved under its name: a
   * later record with the same name overwrites an earlier one.
   */
  lemma {:induction false} StoreAllLast(sink: Sink, records: seq<Record>, i: nat)
    requires i < |records| && SavedLast(records, i)
    ensures FileName(records[i].name) in StoreAll(sink, records).files
    ensures StoreAll(sink, records).files[FileName(records[i].name)] == records[i].content
    decreases |records|
  {
    var init, last := records[..|records| - 1], records[|records| - 1];
    if i < |records| - 1 {
      assert records[i] == init[i];
      assert SavedLast(init, i);
      assert FileName(last.name) != FileName(records[i].name);
      StoreAllLast(sink, init, i);
    }
  }

  /** Files that no record is saved under keep their content. */
  lemma {:induction false} StoreAllUntouched(sink: Sink, records: seq<Record>, k: seq<CodeUnit>)
    requires k in sink.files
    requires forall rec <- records :: FileName(rec.name) != k
    ensures k in StoreAll(sink, records).files
    ensures StoreAll(sink, records).files[k] == sink.files[k]
    decreases |records|
  {
    if records != [] {
      var init := records[..|records| - 1];
      assert forall rec <- init :: rec in records;
      StoreAllUntouched(sink, init, k);
    }
  }
}
