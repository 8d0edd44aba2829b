# SaveUtil container parser, modelled in Dafny

A Barotrauma save file is a gzip stream. Decompressed, it is a run of records,
one per file. Each record has four fields:

    int32 nameLength | nameLength UTF-16 code units | int32 contentLength | content bytes

Every number is little-endian. `SaveUtil::decompressToDirectory` empties the
destination directory. It then calls `SaveUtil::extractFile` until that call
returns false or throws.

`extractFile` works through one record:
- It reads the fields with `toInt32` and `toChar16`.
- It guards each read with `checkBufferOverflow`.
- It advances a cursor passed by reference.
- It writes the record's content to a file named after the record.

This project models that parser and proves properties of it. It has four
modules.

- `ByteCodec` (`byte_codec.dfy`) covers the field readers and the bounds check.
  - Bytes are numbers in 0..255.
  - `size_t` is an integer in [0, 2^64) whose subtraction wraps explicitly.
  - `ToInt32` and `ToChar16` read the bytes as base-256 numbers.
  - The source's shifts and ors are modelled on bit-vectors and proved to give the same values.
  - `CheckBufferOverflow` is proved equal to "offset is past the end, or fewer than `readSize` bytes remain", despite the wrap-around.
- `Container` (`container.dfy`) covers the record layout.
  - `ParseRecord` is one call of `extractFile`, stated branch by branch as a function.
  - `Decode` is the whole extraction loop as a function.
  - `FileName` is the name a record is written under: the name read, cut at its first zero code unit, with a leading byte-order mark handled as `QString::fromUtf16` does.
  - `Writable` tells the names whose file can be created from those that name the directory itself or its parent.
  - `Store` and `StoreAll` model the directory as a map from file name to content, plus the list of records in the order they were written.
  - `Serialize` is a serializer written only for the specification. The repository has no working encoder: `compressDirectory` is empty, and the writers in `saveutil.h` have no bodies. The serializer makes the round trip statable.
- `Extraction` (`extract.dfy`) holds the imperative form of the two procedures.
  - `ExtractFile` moves a cursor field by field, reads the name in a loop, and returns the outcome, the new cursor and the new directory.
  - `DecompressToDirectory` runs it in a `while` loop from cursor 0 over an empty directory.
  - Both methods are proved equal to `ParseRecord` and `Decode`.
- `Slices` (`slices.dfy`) holds general lemmas about slices of sequences.

Where the record ends early or a length is out of range, the code does the following:

- A buffer that ends inside a record's name, content-length field or content makes `extractFile` return false. The partial record is dropped and nothing is thrown (`ParseRecordTruncated`, `DecodeTruncated`).
- A negative content length also makes `extractFile` return false, with nothing thrown (`ParseRecordNegativeContent`).
- `extractFile` throws in two cases:
  - The name length is negative or above 255 (`ParseRecordFails`, `DecodeBadNameLength`).
  - The record is complete but its file name is empty, `.` or `..`, so that `dir + separator + name` names the directory itself or its parent (`ParseRecordUnwritable`, `UnwritableNames`). `QFile::open` then fails, `write` returns -1 and the check at saveutil.cpp:100 throws. An empty file name also comes from a name whose first code unit is zero, or that is only a byte-order mark.

## Model

| member | source | states |
|---|---|---|
| ByteCodec.Signed32 | saveutil.cpp:10-15 | the int32 read from a 32-bit pattern has that pattern as its two's-complement bits, and is negative exactly when the top bit is set |
| ByteCodec.Pack32 | saveutil.cpp:11-14 | the four bytes, widened to 32 bits, shifted by 24, 16, 8 and 0 and or-ed, give the base-256 number with the first byte lowest |
| ByteCodec.ToInt32Bits | saveutil.cpp:10-15 | `toInt32` equals the two's-complement reading of the shifted-and-or-ed pattern of bytes o..o+3 |
| ByteCodec.LittleEndian4 | saveutil.cpp:10-15 | the unsigned value read is b[o] + 2^8·b[o+1] + 2^16·b[o+2] + 2^24·b[o+3] |
| ByteCodec.ToInt32 | saveutil.cpp:10-15 | the int32 read is negative exactly when the top bit of byte o+3 is set |
| ByteCodec.ToInt32Reads | saveutil.cpp:10-15 | `toInt32` depends on bytes o..o+3 only |
| ByteCodec.ToChar16 | saveutil.cpp:18-23 | the code unit read is b[o] + 256·b[o+1] |
| ByteCodec.Pack16 | saveutil.cpp:19-22 | the two bytes shifted by 8 and 0 and or-ed give b0 + 256·b1 |
| ByteCodec.ToChar16Bits | saveutil.cpp:18-23 | `toChar16` equals the shifted-and-or-ed 16-bit pattern of bytes o and o+1 |
| ByteCodec.LittleEndian2 | saveutil.cpp:18-23 | the code unit read is b[o] + 256·b[o+1], which lies in 0..65535 by its type |
| ByteCodec.ToChar16Reads | saveutil.cpp:18-23 | `toChar16` depends on bytes o and o+1 only |
| ByteCodec.CheckBufferOverflow | saveutil.cpp:27-29 | the wrapping unsigned test is true exactly when offset > bufSize or fewer than readSize bytes remain |
| ByteCodec.ToSizeT | saveutil.cpp:68 | the cast to `size_t` is the value modulo 2^64, so a negative length becomes a number of at least 2^64 − 2^31 |
| ByteCodec.LittleEndianOfLeBytes | saveutil.cpp:10-15 | reading k little-endian bytes written as the digits of u gives u back, whatever precedes them |
| ByteCodec.LeBytesOfLittleEndian | saveutil.cpp:10-15 | writing the number that k bytes spell gives back those bytes |
| ByteCodec.ToInt32OfEncoded | saveutil.cpp:10-15 | writing an int32 in the layout and reading it with `toInt32` gives it back |
| ByteCodec.EncodeToInt32 | saveutil.cpp:10-15 | reading four bytes with `toInt32` and writing the result gives the same four bytes |
| ByteCodec.ReadEncodedInt32 | saveutil.cpp:10-15 | four bytes holding the encoding of v read as v, wherever they are |
| ByteCodec.ToInt32After | saveutil.cpp:10-15 | reading after a prefix reads the bytes that follow it |
| ByteCodec.ToChar16OfEncoded | saveutil.cpp:18-23 | writing a code unit and reading it with `toChar16` gives it back |
| ByteCodec.EncodeToChar16 | saveutil.cpp:18-23 | reading two bytes with `toChar16` and writing the result gives the same two bytes |
| ByteCodec.ReadEncodedChar16 | saveutil.cpp:18-23 | two bytes holding the encoding of c read as c |
| Container.ParseRecord | saveutil.cpp:64-105 | the cursor never goes back and never passes the end of the buffer; an extraction moves it by at least 8 bytes |
| Container.CodeUnitsAt | saveutil.cpp:81-84 | reading n code units gives a name of n code units |
| Container.ParseRecordStays | saveutil.cpp:66-67 | the cursor stays put exactly when fewer than 4 bytes remain, and the step then returns false; otherwise it moves by at least 4 |
| Container.ParseRecordFails | saveutil.cpp:68-73 | the step throws a name-length error exactly when 4 bytes remain and the name length is negative or above 255; the cursor is then exactly 4 bytes further |
| Container.ParseRecordNegativeContent | saveutil.cpp:87-92 | a negative content length after a name that fits returns false, with the cursor past the content length field |
| Container.ParseRecordExtracted | saveutil.cpp:64-105 | a true return means both lengths are in range and the whole record is present; the record's file can be written; the record is the n code units after the first length and the m bytes after the second; the cursor moved by exactly 8 + 2n + m |
| Container.ParseRecordReads | saveutil.cpp:64-105 | conversely, in-range lengths whose record fits, with a name whose file can be written, make the step extract that record |
| Container.ParseRecordUnwritable | saveutil.cpp:96-101 | a complete record whose file cannot be written makes the step throw, with the cursor past its content |
| Container.ParseRecordSound | saveutil.cpp:64-105 | an extracted record fits the layout, and the bytes consumed are exactly its encoding |
| Container.ParseRecordComplete | saveutil.cpp:64-105 | the encoding of a well-formed record is extracted as that record, with the cursor at its end |
| Container.ParseRecordTruncated | saveutil.cpp:78-92 | a buffer that ends inside a record returns false, not an error |
| Container.CodeUnitAt | saveutil.cpp:81-84 | the i-th code unit of the name is the one read 2i bytes after the name starts |
| Container.CodeUnitsSnoc | saveutil.cpp:81-84 | reading one more code unit appends the one at the current cursor |
| Container.CodeUnitsOfEncodedName | saveutil.cpp:81-84 | reading the code units of an encoded name gives the name |
| Container.EncodedCodeUnits | saveutil.cpp:81-84 | encoding the code units read gives back the bytes they came from |
| Container.NullTerminated | saveutil.cpp:96 | the name as `filename.data()` hands it on: never longer than the code units read, and not empty when they start with a non-zero unit; `NullTerminatedPrefix` and `NullTerminatedWhole` state that it is the units up to the first zero |
| Container.NullTerminatedPrefix | saveutil.cpp:96 | the null-terminated name is the longest prefix of the code units read without a zero, and a zero follows it when it is shorter |
| Container.NullTerminatedWhole | saveutil.cpp:96 | a name without a zero code unit is used whole |
| Container.SwapTwice | saveutil.cpp:96 | exchanging the bytes of a code unit twice gives it back; only zero swaps to zero (by `Swap`'s contract) |
| Container.SwapAllUnits | saveutil.cpp:96 | a byte-swapped name has the same length and each unit byte-swapped in place |
| Container.FromUtf16 | saveutil.cpp:96 | `QString::fromUtf16` loses at most one unit, and loses one exactly when the string starts with U+FEFF or U+FFFE; `FileNameMarked` and `FileNameSwapped` state what is then kept |
| Container.FileName | saveutil.cpp:96 | the file name is never longer than the name read; `FileNamePlain`, `FileNameMarked`, `FileNameSwapped` and `FileNameNoZero` state it case by case: cut at the first zero, a leading U+FEFF dropped, a leading U+FFFE dropped with the rest byte-swapped, and no zero unit left |
| Container.Writable | saveutil.cpp:96-101 | `QFile::open` succeeds only for a non-empty file name and always for one longer than two units; `UnwritableNames` shows that the empty name, `.` and `..` (with or without a byte-order mark), and any name whose first unit is zero, fail, so `write` returns -1 and the step throws, as `ParseRecordUnwritable` states |
| Container.FileNamePlain | saveutil.cpp:96 | without a leading byte-order mark the file name is the null-terminated name |
| Container.FileNameMarked | saveutil.cpp:96 | a leading byte-order mark U+FEFF is dropped from the file name |
| Container.FileNameSwapped | saveutil.cpp:96 | a leading U+FFFE is dropped and the rest of the name is read byte-swapped |
| Container.FileNameNoZero | saveutil.cpp:96 | a file name is no longer than the name read and holds no zero code unit |
| Container.UnwritableNames | saveutil.cpp:96-101 | names that resolve to the directory or its parent (empty, starting with zero, only a mark, `.`, `..`, with or without a mark) throw; `...` and a marked `a` are written |
| Container.Store | saveutil.cpp:96-102 | writing a record creates or overwrites exactly the file under its file name with its content, leaves every other file as it was, and logs the record |
| Container.StoreAll | saveutil.cpp:97-102 | the records written are logged in order |
| Container.StoreAllKeys | saveutil.cpp:97-102 | after the writes, the directory holds exactly the files it held before plus one per file name written |
| Container.StoreAllLast | saveutil.cpp:97-102 | each file holds the content of the last record written under its name, so a later duplicate overwrites an earlier one |
| Container.StoreAllUntouched | saveutil.cpp:97-102 | a file that no record is written to keeps its content |
| Container.Decode | saveutil.cpp:50-51 | the loop ends within the buffer, with the cursor at least 8 bytes further on for each record extracted; it ends by returning false, by a name-length throw or by a write throw |
| Container.DecodeExtracted | saveutil.cpp:51 | a step that extracts a record is followed by the decoding of the rest of the buffer |
| Container.DecodeStops | saveutil.cpp:51 | a step that returns false ends the loop where it left the cursor |
| Container.DecodeBadLengthAt | saveutil.cpp:68-73 | a bad name length ends the loop with that error, 4 bytes further on |
| Container.DecodeAfterRecords | saveutil.cpp:50-51 | well-formed records at the cursor are extracted, in order, before anything after them is read |
| Container.DecodeStopsAfter | saveutil.cpp:50-51 | records followed by a step that returns false give exactly those records |
| Container.DecodeFailsAfter | saveutil.cpp:50-51 | records followed by a bad name length give those records and the error |
| Container.DecodeSerialized | saveutil.cpp:45-51 | round trip: a serialized container decodes to exactly its records, in order, ending cleanly at its end |
| Container.DecodeTruncated | saveutil.cpp:45-51 | a container cut inside its last record decodes to the records before the cut, without an error |
| Container.DecodeBadNameLength | saveutil.cpp:45-51 | a bad name length after well-formed records gives those records, then the error with the cursor 4 bytes past the records |
| Container.DecodeHolds | saveutil.cpp:50-51 | the records extracted lie one after another in the buffer from the cursor on |
| Container.DecodeSound | saveutil.cpp:50-51 | every extracted record fits the layout, and the records serialized are exactly the bytes consumed |
| Container.HoldsRecordsSerialized | saveutil.cpp:64-105 | records held one after another are the container's bytes, and the other way round |
| Extraction.ReadName | saveutil.cpp:76-84 | the loop reads the n code units after the name length and leaves the cursor 2n bytes further on |
| Extraction.ExtractFile | saveutil.cpp:64-105 | the outcome and the cursor are those of `ParseRecord`; the directory gains the extracted record, and is unchanged after a false return or either throw |
| Extraction.DecompressToDirectory | saveutil.cpp:45-51 | starting from an empty directory, the records written, how the loop ended and the final cursor are those of `Decode`; the directory is the empty one with those records written in order |

## Left out

- Decompression is not modelled (saveutil.cpp:34-42). It is a call into the gzip-cpp library; the model starts from the decompressed bytes. A failing decompression rethrows with a "gzip error: " prefix, and is not modelled either.
- Opening the compressed file is not modelled (saveutil.cpp:34-35). An open failure goes unchecked: `readAll()` then yields an empty buffer, while `compressedFile.size()` at line 38 still reads the size from the file system, so a file that exists but cannot be opened hands `gzip::decompress` an empty buffer with a non-zero size.
- `QDir::removeRecursively` and `mkpath` (saveutil.cpp:45-48) are modelled only as the empty directory `EmptySink` the loop starts from. Their failures are not modelled.
- Files are keyed by their file name alone (saveutil.cpp:96). The model does not join paths with `QDir::separator()`.
- Container.Writable: only the names that resolve to the directory itself or its parent are unwritable in the model. Some names are written in the model as plain files although the platform would do otherwise:
  - names containing a path separator, which reach another directory or fail to open;
  - names the platform forbids, such as reserved device names or characters on Windows;
  - names too long for the file system.
- Container.FileName: the file system may merge names that differ as code units, and the model keeps them apart. Two examples are case-insensitive volumes and the lossy conversion of unpaired surrogates to the file system's encoding. `StoreAllKeys` and `StoreAllLast` then count files per distinct code-unit name.
- Container.FromUtf16: a name without a byte-order mark is taken in host byte order, modelled as little-endian.
- `QFile` open, write and close are modelled as one map update (saveutil.cpp:97-102). Apart from the file names that `Writable` rules out, a write in the model always succeeds. The model does not have a disk that fills up or a short write on an opened file (lines 100-101).
- Extraction.ExtractFile: requires the buffer to be at most 2^63 − 1 bytes, the most a `std::string` holds. A negative content length cast to `size_t` then never fits the check at saveutil.cpp:91. The loop in `decompressToDirectory` always passes a cursor within the buffer.
- Extraction.DecompressToDirectory: requires the same buffer bound.
- ByteCodec.ToInt32: the shift by 24 of a byte of 128 or more overflows a signed `int`. The model takes the two's-complement result, which C++20 defines and common compilers produce.
- The text of the exceptions is not modelled (saveutil.cpp:72, 101). The name-length error keeps the offending length; the write error keeps the name of the record whose file could not be written.
- `compressDirectory` (saveutil.cpp:111-113) has an empty body, so there is no behaviour to model. The writer and backup functions declared in saveutil.h have no bodies either. `Serialize` is written only for the specification and stands in for them.
- gamesession.cpp, gamesessioneditor.cpp and mainwindow.cpp are not part of this model. They are Qt XML, widget and dialog code.
