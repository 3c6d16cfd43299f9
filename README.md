# CDDATA archive codec (Jade Cocoon 2 tools)

This project models the two halves of the JC2Tools CDDATA codec in Dafny.

- **The unpacker** opens a CDDATA archive and splits it into files. An archive has two parts:
  - `CDDATA.000` is the blob: every file's bytes, each padded with zeros to whole 2048-byte sectors.
  - `CDDATA.LOC` is the index: a `u32` record count `N`, then `N` 16-byte records. Each record holds `position` (in sectors), `size`, `nbSectors` and `isABin`.

  The unpacker checks that the index is exactly `4 + 16 N` bytes long. Then, for each record, it seeks to `position * 2048` in the blob, reads `size` bytes into one shared buffer, and writes them to the path the path table gives for that record's position.
- **The repacker** rebuilds an archive from a `data` directory.
  1. It counts the regular files in the directory.
  2. It reads each file's size through the first `N` table paths.
  3. It rejects a total above `2^32 - 1`.
  4. It writes each file padded to whole sectors, with a record that gives its sector position, its size, its sector count and whether its extension is `.bin`.

How the model is built:
- The file system is modelled as values:
  - a staged directory is a `map` from table path to bytes;
  - an existence probe is a `bool`;
  - the external path table `CDData000::filesPath` is a function parameter `nat -> seq<Path>`.
- The two loops are methods. Each is proved against a specification function of its inputs:
  - `Unpacker.UnpackFiles` works on an `array` buffer that is shared across iterations;
  - `Repacker.WriteArchive` carries the running `sectorPosition`.
- `Unpacker.Unpack` and `Repacker.Repack` state their whole result as `UnpackSpec` and `RepackSpec`.
- Lemmas about those functions state what the format promises:
  - the index length check;
  - contiguous sector positions;
  - padding made of zeros;
  - the index round trip;
  - unpacking a repacked archive gives back exactly the staged files.

Modules:
- `Bytes`: the fixed-width integers and their little-endian codec.
- `Errors`: the failures.
- `Sectors`: the sector arithmetic, both unbounded and as the 32-bit code computes it.
- `Paths`: paths, the fixed names, and the `.bin` extension test.
- `LocIndex`: the index file.
- `Unpacker`: the unpacker.
- `Repacker`: the repacker.
- `Layout`: where records point in a repacked blob.
- `RoundTrip`: the round trip and the findings.

## Model

| member | source | states |
|---|---|---|
| Bytes.EncodeU32 | src/JC2Tools.cpp:152 | a `u32` is written as four bytes (least significant first; `DecodeEncodeU32` and `EncodeDecodeU32` make it the inverse of reading) |
| Bytes.DecodeEncodeU32 | src/JC2Tools.cpp:59-60 | reading back the four bytes of a written `u32` gives the same value |
| Bytes.EncodeDecodeU32 | src/JC2Tools.cpp:152 | every four bytes are the encoding of the `u32` read from them |
| Bytes.U32ToS32 | src/JC2Tools.cpp:30 | the signed view of a 32-bit field maps back to the same unsigned bit pattern |
| Bytes.U32 | src/JC2Tools.cpp:184 | 32-bit unsigned arithmetic: the value is unchanged when it fits, and otherwise is congruent modulo 2^32 |
| Sectors.NbSectors | src/JC2Tools.cpp:166 | the sector count is the least `n` with `2048 n >= size` |
| Sectors.Padding | src/JC2Tools.cpp:170-175 | the padding brings the size to a multiple of 2048, is below 2048, and is 0 exactly when the size is already a multiple |
| Sectors.PaddedIsWholeSectors | src/JC2Tools.cpp:166-175 | the padded length `fileSizeSector` equals `nbSectors * 2048` |
| Sectors.Segment | src/JC2Tools.cpp:170-181 | a file's blob segment is whole sectors, starts with the file's bytes and continues with zeros |
| Sectors.NbSectorsU32 | src/JC2Tools.cpp:166 | the 32-bit `(size + 2047) >> 11` agrees with the exact count whenever `size + 2047` fits |
| Sectors.NbSectorsU32Agrees | src/JC2Tools.cpp:156-175 | when a file's sectors fit in 32 bits, the 32-bit sector count, padded length and buffer size are all exact |
| Sectors.FileSizeSectorU32 | src/JC2Tools.cpp:171-175 | the 32-bit padded length is `nbSectors * 2048` whenever it fits |
| Sectors.BufferSizeU32 | src/JC2Tools.cpp:155-156 | the 32-bit buffer size is `maxFileSize` rounded up to whole sectors whenever that fits in 32 bits |
| Sectors.BufferSizeU32Wraps | src/JC2Tools.cpp:155-156 | for a largest file of more than 2^32 - 2048 bytes, the 32-bit buffer size is 0 although the file needs 2^21 sectors |
| Sectors.NbSectorsU32WrapsAtLimit | src/JC2Tools.cpp:156-175 | for a file of 2^32 - 1 bytes, the 32-bit buffer size, sector count and padded length are all 0, while 2^21 sectors are needed |
| Paths.NameExtension | src/JC2Tools.cpp:167 | the extension of a file name is a suffix of it that is empty or starts with a `.` that is not the name's first character |
| Paths.Extension | src/JC2Tools.cpp:167 | `path::extension()` is a suffix of the path, and when not empty it starts with `.`, holds no `/` and is shorter than the path |
| Paths.IsABin | src/JC2Tools.cpp:158-167 | a path whose extension is `.bin` is longer than `.bin` and ends with it |
| Paths.FilenameIsLastComponent | src/JC2Tools.cpp:167 | the file name has no `/`, is a suffix of the path, and a `/` comes right before it |
| Paths.LastDotIsRightmost | src/JC2Tools.cpp:167 | the rightmost `.` is found, no `.` follows it, and -1 means there is no `.` |
| Paths.NameExtensionBin | src/JC2Tools.cpp:167 | a file name has extension `.bin` iff it is longer than four characters and ends in `.bin` |
| Paths.IsABinIff | src/JC2Tools.cpp:158-167 | `path.extension() == ".bin"` iff the last path component is longer than `.bin` and ends with it |
| Paths.FilenameIgnoresDirectory | src/JC2Tools.cpp:129 | prefixing `src/` does not change the file name, so the flag depends on the table path only |
| LocIndex.EncodeRecord | src/JC2Tools.cpp:25-31 | a record occupies 16 bytes |
| LocIndex.DecodeEncodeRecord | src/JC2Tools.cpp:182 | a written record reads back field for field |
| LocIndex.EncodeDecodeRecord | src/JC2Tools.cpp:69 | every 16 bytes are the encoding of the record read from them |
| LocIndex.EncodeRecords | src/JC2Tools.cpp:182 | the record table is 16 bytes per record |
| LocIndex.EncodeRecordsSnoc | src/JC2Tools.cpp:182 | writing one more record appends its 16 bytes |
| LocIndex.DecodeRecords | src/JC2Tools.cpp:68-69 | reading `n` records yields `n` records |
| LocIndex.DecodeRecordsAt | src/JC2Tools.cpp:69 | record `i` comes from bytes `[16 i, 16 i + 16)` of the table |
| LocIndex.DecodeEncodeRecords | src/JC2Tools.cpp:182 | a written table reads back as the same records |
| LocIndex.EncodeDecodeRecords | src/JC2Tools.cpp:69 | every table is the encoding of the records read from it |
| LocIndex.EncodeIndex | src/JC2Tools.cpp:152 | the index is `4 + 16 N` bytes and its header holds `N` |
| LocIndex.ParseIndex | src/JC2Tools.cpp:59-66 | the index is accepted iff its length is exactly `4 + 16 n` for the `n` in its header. A file shorter than 4 bytes is rejected. Rejection is `"CDDATA.LOC" is invalid`, and acceptance yields `n` records |
| LocIndex.ParseIndexAt | src/JC2Tools.cpp:68-69 | record `i` of an accepted index is the 16 bytes at offset `4 + 16 i` |
| LocIndex.ParseEncodeIndex | src/JC2Tools.cpp:63-69 | every index the repacker writes is accepted and yields its records |
| LocIndex.EncodeParseIndex | src/JC2Tools.cpp:59-69 | every accepted index is the encoding of the records parsed from it |
| LocIndex.SeekOffset | src/JC2Tools.cpp:91 | the 32-bit seek offset is `position * 2048` below sector 2^21, and wraps to 0 at 2^21 |
| Unpacker.MaxSize | src/JC2Tools.cpp:71-75 | the buffer size is the largest record size: some record attains it and no record exceeds it |
| Unpacker.ReadFile | src/JC2Tools.cpp:91-92 | a seek and a read fail the stream exactly on a short read, and a failed stream changes nothing. A full read puts the blob bytes at the buffer front |
| Unpacker.StreamAfter | src/JC2Tools.cpp:82-92 | the shared buffer keeps its size throughout the loop |
| Unpacker.Unpacked | src/JC2Tools.cpp:85-96 | one written file per record, at table path `i`, of exactly `size_i` bytes |
| Unpacker.UnpackSpec | src/JC2Tools.cpp:39-99 | missing `CDDATA.000` (checked first) or `CDDATA.LOC` is a not-found error, and a bad index length gives an invalid-file error. Otherwise there is one file per record |
| Unpacker.StreamNeverFails | src/JC2Tools.cpp:91-92 | when every record lies inside the blob, no read comes up short |
| Unpacker.UnpackedAreSlices | src/JC2Tools.cpp:85-96 | when every record lies inside the blob, file `i` is exactly the blob bytes of record `i`: padding is not copied, and buffer leftovers do not leak |
| Unpacker.UnpackedIsSliceAt | src/JC2Tools.cpp:85-96 | file `i` is exactly the blob bytes of record `i` as soon as records `0..i` lie inside the blob, because the stream fails only from the first short read on |
| Unpacker.UnpackedPrefix | src/JC2Tools.cpp:85-96 | the files written for the first `k` records are the first `k` files written |
| Unpacker.LastIsSlice | src/JC2Tools.cpp:91-95 | the last read copies exactly the last record's bytes |
| Unpacker.UnpackStep | src/JC2Tools.cpp:85-96 | one loop iteration extends the stream state and the written files by one record |
| Unpacker.ReadInto | src/JC2Tools.cpp:92 | `read` overwrites the first `count` buffer bytes with blob bytes and keeps the rest |
| Unpacker.SeekAndRead | src/JC2Tools.cpp:91-92 | the in-place seek and read on the array buffer is `ReadFile` |
| Unpacker.UnpackFiles | src/JC2Tools.cpp:82-96 | the loop over the shared buffer writes exactly `Unpacked` |
| Unpacker.Unpack | src/JC2Tools.cpp:39-99 | the unpacker's result is `UnpackSpec` |
| Repacker.FirstMissing | src/JC2Tools.cpp:126-130 | the first table path that is not a staged file |
| Repacker.Lookup | src/JC2Tools.cpp:126-130 | sizes are found iff every table path is a staged file, and then the contents come in table order |
| Repacker.LookupReportsFirstMissing | src/JC2Tools.cpp:126-130 | the size error names the first missing table path |
| Repacker.StatStep | src/JC2Tools.cpp:128-130 | one more staged table path extends the gathered contents and the path sizes by its entry |
| Repacker.MaxLength | src/JC2Tools.cpp:133-136 | `maxFileSize` is the largest file length: some file attains it and no file exceeds it |
| Repacker.ExceedsSizeLimit | src/JC2Tools.cpp:139-142 | the size test: whatever the source's content-total test rejects is rejected. The model adds a padded-total test the source lacks |
| Repacker.ExceedsSizeLimitIsPaddedTest | src/JC2Tools.cpp:139-142 | the model's size test is exactly "the padded blob exceeds 2^32 - 1 bytes", so the source's content-total test is subsumed by it |
| Repacker.Flag | src/JC2Tools.cpp:167 | `isABin` is 1 for a `.bin` path and 0 otherwise |
| Repacker.PackBlob | src/JC2Tools.cpp:181 | the blob is `2048 * (total sectors)` bytes |
| Repacker.PackRecords | src/JC2Tools.cpp:160-168 | one record per file |
| Repacker.RepackSpec | src/JC2Tools.cpp:101-188 | the repacker checks in the source's order: missing `data` directory, then the first missing table path, then a total above 2^32 - 1 (2^32 itself included) gives the size-limit error. Success iff the directory exists, all paths resolve, and the padded blob fits in 32 bits |
| Repacker.TotalSizeWithinSectors | src/JC2Tools.cpp:139-142 | the content total never exceeds the padded total |
| Repacker.TotalsStep | src/JC2Tools.cpp:132-136 | one more file adds its size to the total and its sectors to the sector count, and raises the maximum if it is larger |
| Repacker.WriteStep | src/JC2Tools.cpp:160-185 | one more file written extends the blob by its segment and the table by its record at the current sector position |
| Repacker.PrefixStep | src/JC2Tools.cpp:181-184 | one more file extends the sector total and the blob |
| Repacker.PackRecordsStep | src/JC2Tools.cpp:182 | one more file extends the encoded table by its record |
| Repacker.TotalSectorsPrefix | src/JC2Tools.cpp:184 | the files before `j`, plus file `j`, never occupy more sectors than all the files |
| Repacker.StatFiles | src/JC2Tools.cpp:126-137 | the sizes loop fails at the first missing path, or yields each path with its size, the total and the maximum |
| Repacker.FillBuffer | src/JC2Tools.cpp:170-180 | after the `memset` and the read, the first `fileSizeSector` buffer bytes are the file's segment, and the bytes after them are as earlier files left them |
| Repacker.WriteFile | src/JC2Tools.cpp:162-184 | one iteration yields the file's segment (the new front of the buffer, whose tail is unchanged) and its record at `sectorPosition`, and advances the position by its sectors |
| Repacker.MaxLengthWithinTotal | src/JC2Tools.cpp:155-156 | when the padded blob fits in 32 bits, so does the largest file rounded up to whole sectors |
| Repacker.NewBuffer | src/JC2Tools.cpp:155-156 | the one buffer is `maxFileSize` rounded up to whole sectors, computed with the source's 32-bit expression |
| Repacker.WriteArchive | src/JC2Tools.cpp:144-185 | the writing loop produces exactly `PackBlob` and `EncodeIndex(PackRecords)` |
| Repacker.Repack | src/JC2Tools.cpp:101-188 | the repacker's result is `RepackSpec` |
| Layout.PackRecordsAt | src/JC2Tools.cpp:162-168 | record `i` has position equal to the sectors of the files before it, and its own size, sector count and `.bin` flag |
| Layout.PositionBelowLimit | src/JC2Tools.cpp:164 | every position is below sector 2^21, and every file ends inside the blob |
| Layout.FirstPositionIsZero | src/JC2Tools.cpp:154 | the first file starts at sector 0 |
| Layout.PositionsContiguous | src/JC2Tools.cpp:184 | each file starts right after the sectors of the previous one |
| Layout.SectorsUsedPackRecords | src/JC2Tools.cpp:166 | the records' sector counts sum to the total sectors of the files |
| Layout.BlobLengthIsSectorsUsed | src/JC2Tools.cpp:181 | the blob is exactly `2048` times the sum of the records' sector counts |
| Layout.PackBlobPrefix | src/JC2Tools.cpp:181 | the blob of the first `j` files is a prefix of the whole blob |
| Layout.PackBlobAt | src/JC2Tools.cpp:170-181 | file `i` is stored after the blob of the earlier files, followed by zeros up to its sector boundary |
| RoundTrip.RepackedIndexAccepted | src/JC2Tools.cpp:63-66 | a repacked index is `4 + 16 N` bytes, passes the unpacker's length check, and parses as the laid-out records |
| RoundTrip.RecordInBlob | src/JC2Tools.cpp:91-92 | each repacked record points inside the blob, at a 32-bit offset, to exactly that file's bytes |
| RoundTrip.RecordsInBlob | src/JC2Tools.cpp:91-92 | the same for all records at once |
| RoundTrip.UnpackRepack | src/JC2Tools.cpp:85-96 | unpacking a repacked archive succeeds with `N` files, and file `i` is table path `i` with exactly its staged bytes |
| RoundTrip.Tree | src/JC2Tools.cpp:94-95 | the unpacked directory has exactly the written paths |
| RoundTrip.TreeHoldsEveryFile | src/JC2Tools.cpp:94-95 | with distinct paths, every written file is found with its own bytes |
| RoundTrip.TreeIsStaged | src/JC2Tools.cpp:110-120 | `N` files at distinct staged paths, holding the staged bytes, make up exactly the staged directory |
| RoundTrip.UnpackRepackRestoresTree | src/JC2Tools.cpp:110-120 | with distinct table paths, the unpacked directory of a repacked archive equals the staged directory |
| RoundTrip.SourceGuardAdmitsWrappedOffset | src/JC2Tools.cpp:139-142 | 2^21 one-byte files plus one more pass the source's size test. The last file gets sector 2^21, whose 32-bit seek offset is 0, so the unpacker reads byte 0 instead of the stored 1. The model's size test rejects this input |
| RoundTrip.SourceGuardAdmitsWrappedSectorCount | src/JC2Tools.cpp:139-142 | a single file of 2^32 - 1 bytes passes the source's size test although its buffer size and sector count wrap. The model's size test rejects it |

## Left out

- Reading and writing real files, `create_directories` and the progress messages (`fmt::print`). The model takes the archive bytes and the staged files as values and returns the written files or the archive.
- The existence probes (`is_regular_file` for the two archive files, `is_directory` for `data`) are `bool` parameters.
- The recursive count of regular files under `data` is the size of the staged map, whose keys are the table paths of those files. A table path that names a file outside `data` is treated as missing.
- `CDData000::filesPath` (the path table) is a parameter `nat -> seq<Path>` that gives `n` paths for `n`. CDData000.hpp is not part of this model, so that the table paths are distinct is a premise of `RoundTrip.UnpackRepackRestoresTree`.
- src/Main.cpp (argument parsing and the interactive menu) is not part of this model.
- The index is a raw dump of native integers, and the model fixes little-endian byte order.
- Paths use `/` as their only separator. There are no root names and no Windows-specific extension rules.
- `std::max_element` on an empty record table returns the end iterator, and the source dereferences it. That behaviour is undefined, so the model uses an empty buffer and no reads follow.
- The `u64` running total and `std::size_t` sizes are unbounded integers. No real file system overflows them.
- A failed `ifstream` is modelled as a stream that ignores every later `seekg` and `read` (the failbit stays set). The partial bytes of a short read are copied. Exceptions from the output streams are not modelled.
- Repacker.Repack: requires `|staged| <= 2^32 - 1`, because the source counts files in a `u32` and the model does not model that counter's wrap-around.
- Repacker.ExceedsSizeLimit: adds a padded-total test to the source's content-total test, so it rejects more inputs than the source does (see Findings).
- The writes past a wrapped 0-byte buffer (`memset` at line 176 and `read` at line 180 for a file of more than 2^32 - 2048 bytes) are undefined behaviour and are not modelled. `Sectors.BufferSizeU32Wraps` shows the buffer size they start from, and the model's size test rejects every input that reaches them.
- Repacker.RepackSpec: departs from the source on purpose. It also rejects an archive whose padded blob exceeds 2^32 - 1 bytes, which the source lets through (see Findings).

## Findings

| source | as written | input that shows it | evidently intended | confidence | as-written member | corrected member |
|---|---|---|---|---|---|---|
| src/JC2Tools.cpp:139-142 | the size limit compares only the sum of raw file sizes with 2^32 - 1. Sector positions still reach 2^21, where the unpacker's 32-bit `position * sectorSize` (line 91) wraps to 0 | 2^21 files of one zero byte, then one file holding byte 1: the total is 2^21 + 1 bytes, the last file's sector is 2^21, and the unpacker reads the first file's byte 0 instead | reject an archive whose padded blob (2048 times the sectors) does not fit in 32 bits | not executed | RoundTrip.SourceGuardAdmitsWrappedOffset | RoundTrip.UnpackRepack |
| src/JC2Tools.cpp:156-180 | the buffer size (line 156), `nbSectors` (166) and `fileSizeSector` (175) are computed in 32 bits. For a largest file of more than 2^32 - 2048 bytes the buffer size wraps to 0, so the `memset` at 176 and the read at 180 write past an empty buffer (undefined behaviour) before anything reaches the archive. The sector count and padded length would wrap to 0 as well | a single file of 2^32 - 1 bytes: it passes the size test, its buffer is 0 bytes long, and the `memset` writes one byte at offset 2^32 - 1 of that buffer | the same padded-size limit, under which the 32-bit buffer size, sector count and padded length are exact | not executed | Sectors.NbSectorsU32WrapsAtLimit | Sectors.NbSectorsU32Agrees |
