/** `JC2Tools::repacker`: concatenate the staged files, in path-table order and each
    padded to a whole number of sectors, into a new blob, and write a fresh index
    describing where each one went. */
module Repacker {
  import opened Bytes
  import opened Errors
  import opened Sectors
  import opened Paths
  import opened LocIndex

  /** The two output files: `CDDATA.000` and `CDDATA.LOC`. */
  datatype Archive = Archive(blob: seq<byte>, loc: seq<byte>)

  /** `PathSize`: a table path and the size `file_size` reported for it. */
  datatype PathSize = PathSize(path: Path, size: nat)

  /** Position of the first table path that is not a staged regular file. */
  function FirstMissing(staged: map<Path, seq<byte>>, paths: seq<Path>): (k: nat)
    requires exists i :: 0 <= i < |paths| && paths[i] !in staged
    ensures k < |paths| && paths[k] !in staged
    ensures forall j :: 0 <= j < k ==> paths[j] in staged
  {
    if paths[0] !in staged then 0
    else
      assert exists i :: 0 <= i < |paths[1..]| && paths[1..][i] !in staged by {
        var i :| 0 <= i < |paths| && paths[i] !in staged;
        assert paths[1..][i - 1] == paths[i];
      }
      1 + FirstMissing(staged, paths[1..])
  }

  /** The sizes loop (gathered contents, in table order): `file_size` throws for the
      first table path that is not a staged regular file. */
  function Lookup(staged: map<Path, seq<byte>>, paths: seq<Path>): (r: Result<seq<seq<byte>>>)
    ensures r.Ok? <==> forall i :: 0 <= i < |paths| ==> paths[i] in staged
    ensures r.Ok? ==>
      |r.value| == |paths| && forall i :: 0 <= i < |paths| ==> r.value[i] == staged[paths[i]]
  {
    if forall i :: 0 <= i < |paths| ==> paths[i] in staged then
      Ok(seq(|paths|, i requires 0 <= i < |paths| => staged[paths[i]]))
    else
      Err(FileSizeFailed(paths[FirstMissing(staged, paths)]))
  }

  /** The error `repacker` reports is about the first table path that is missing. */
  lemma LookupReportsFirstMissing(staged: map<Path, seq<byte>>, paths: seq<Path>, k: nat)
    requires k < |paths| && paths[k] !in staged
    requires forall j :: 0 <= j < k ==> paths[j] in staged
    ensures Lookup(staged, paths) == Err(FileSizeFailed(paths[k]))
  {
  }

  /** `totalFilesSize`: the sum of the file sizes. */
  function TotalSize(cs: seq<seq<byte>>): nat
  {
    if cs == [] then 0 else TotalSize(cs[..|cs| - 1]) + |cs[|cs| - 1]|
  }

  /** The sectors the files occupy in the blob, each rounded up to whole sectors; the
      `sectorPosition` after the last file. */
  function TotalSectors(cs: seq<seq<byte>>): nat
  {
    if cs == [] then 0 else TotalSectors(cs[..|cs| - 1]) + NbSectors(|cs[|cs| - 1]|)
  }

  /** `maxFileSize`: the length of the longest file, 0 when there are none. */
  function MaxLength(cs: seq<seq<byte>>): (m: nat)
    ensures forall i :: 0 <= i < |cs| ==> |cs[i]| <= m
    ensures cs == [] ==> m == 0
    ensures cs != [] ==> exists i :: 0 <= i < |cs| && |cs[i]| == m
  {
    if cs == [] then 0
    else
      var m := MaxLength(cs[..|cs| - 1]);
      if |cs[|cs| - 1]| > m then |cs[|cs| - 1]| else m
  }

  /** The size test that makes `repacker` refuse to write anything. The source rejects
      only a total of more than 2^32 - 1 content bytes; the model also rejects a padded
      total of more than 2^32 - 1 bytes, without which sector offsets and per-file
      sector counts overflow their 32 bits (see `RoundTrip.SourceGuardAdmitsWrappedOffset`). */
  predicate ExceedsSizeLimit(cs: seq<seq<byte>>): (b: bool)
    ensures TotalSize(cs) > U32Max ==> b
  {
    TotalSize(cs) > U32Max || TotalSectors(cs) * SectorSize > U32Max
  }

  /** The blob: every file's segment (its bytes, zero-padded to a sector boundary),
      back to back. */
  function PackBlob(cs: seq<seq<byte>>): (blob: seq<byte>)
    ensures |blob| == TotalSectors(cs) * SectorSize
  {
    if cs == [] then [] else PackBlob(cs[..|cs| - 1]) + Segment(cs[|cs| - 1])
  }

  /** `isABin` as the record stores it: 1 for a ".bin" file, 0 otherwise. */
  function Flag(path: Path): (f: s32)
    ensures f == 0 || f == 1
    ensures f == 1 <==> IsABin(path)
  {
    if IsABin(path) then 1 else 0
  }

  /** The record table: file `i` starts at the sector where the files before it end. */
  function PackRecords(paths: seq<Path>, cs: seq<seq<byte>>): (rs: seq<Record>)
    requires |paths| == |cs| && TotalSectors(cs) * SectorSize <= U32Max
    ensures |rs| == |cs|
  {
    if cs == [] then []
    else
      var last := |cs| - 1;
      var position := TotalSectors(cs[..last]);
      var size := |cs[last]|;
      PackRecords(paths[..last], cs[..last])
        + [Record(position, size, NbSectors(size), Flag(paths[last]))]
  }

  /** Everything `repacker` decides, from the staged files and the table paths. The
      checks come in the source's order: the `data` directory, then each table path
      (while the sizes are gathered), then the size limit; only then is output made. */
  function RepackSpec(dataDirExists: bool, staged: map<Path, seq<byte>>, paths: seq<Path>)
    : (r: Result<Archive>)
    requires |paths| <= U32Max
    ensures !dataDirExists ==> r == Err(DirectoryNotFound(DataDirectory))
    ensures dataDirExists && Lookup(staged, paths).Err? ==> r == Err(Lookup(staged, paths).error)
    ensures dataDirExists && Lookup(staged, paths).Ok? && TotalSize(Lookup(staged, paths).value) > U32Max
      ==> r == Err(SizeLimitExceeded(Cddata000Filename))
    ensures r.Ok? <==>
      dataDirExists && Lookup(staged, paths).Ok?
      && TotalSectors(Lookup(staged, paths).value) * SectorSize <= U32Max
  {
    if !dataDirExists then Err(DirectoryNotFound(DataDirectory))
    else
      match Lookup(staged, paths)
      case Err(e) => Err(e)
      case Ok(cs) =>
        TotalSizeWithinSectors(cs);
        if ExceedsSizeLimit(cs) then Err(SizeLimitExceeded(Cddata000Filename))
        else Ok(Archive(PackBlob(cs), EncodeIndex(PackRecords(paths, cs))))
  }

  /** The padded files are never smaller than the files themselves, so the size test on
      padded sectors subsumes the one on content bytes. */
  lemma {:induction false} TotalSizeWithinSectors(cs: seq<seq<byte>>)
    ensures TotalSize(cs) <= TotalSectors(cs) * SectorSize
  {
    if cs != [] {
      var last := |cs| - 1;
      TotalSizeWithinSectors(cs[..last]);
      assert TotalSectors(cs) * SectorSize
        == TotalSectors(cs[..last]) * SectorSize + NbSectors(|cs[last]|) * SectorSize;
    }
  }

  /** The model's size test is the padded-total test alone: the source's content-total
      test adds nothing to it. */
  lemma ExceedsSizeLimitIsPaddedTest(cs: seq<seq<byte>>)
    ensures ExceedsSizeLimit(cs) <==> TotalSectors(cs) * SectorSize > U32Max
  {
    TotalSizeWithinSectors(cs);
  }

  lemma AppendAssociative<T>(a: seq<T>, b: seq<T>, c: seq<T>)
    ensures (a + b) + c == a + (b + c)
  {
  }

  /** One more file added to the running sums. */
  lemma TotalsStep(cs: seq<seq<byte>>, c: seq<byte>)
    ensures TotalSize(cs + [c]) == TotalSize(cs) + |c|
    ensures TotalSectors(cs + [c]) == TotalSectors(cs) + NbSectors(|c|)
    ensures MaxLength(cs + [c]) == if |c| > MaxLength(cs) then |c| else MaxLength(cs)
  {
    assert (cs + [c])[..|cs|] == cs;
  }

  /** One more file written: its segment extends the blob and its record the table. */
  lemma WriteStep(paths: seq<Path>, cs: seq<seq<byte>>, i: nat)
    requires |paths| == |cs| && i < |cs| && TotalSectors(cs) * SectorSize <= U32Max
    ensures TotalSectors(cs[..i]) * SectorSize <= U32Max
    ensures TotalSectors(cs[..i + 1]) * SectorSize <= U32Max
    ensures TotalSectors(cs[..i + 1]) == TotalSectors(cs[..i]) + NbSectors(|cs[i]|)
    ensures PackBlob(cs[..i + 1]) == PackBlob(cs[..i]) + Segment(cs[i])
    ensures EncodeRecords(PackRecords(paths[..i + 1], cs[..i + 1]))
      == EncodeRecords(PackRecords(paths[..i], cs[..i]))
         + EncodeRecord(Record(TotalSectors(cs[..i]), |cs[i]|, NbSectors(|cs[i]|), Flag(paths[i])))
  {
    TotalSectorsPrefix(cs, i + 1);
    TotalSectorsPrefix(cs, i);
    PrefixStep(cs, i);
    PackRecordsStep(paths, cs, i);
  }

  lemma PrefixStep(cs: seq<seq<byte>>, i: nat)
    requires i < |cs|
    ensures TotalSectors(cs[..i + 1]) == TotalSectors(cs[..i]) + NbSectors(|cs[i]|)
    ensures PackBlob(cs[..i + 1]) == PackBlob(cs[..i]) + Segment(cs[i])
  {
    assert cs[..i + 1][..i] == cs[..i];
  }

  lemma PackRecordsStep(paths: seq<Path>, cs: seq<seq<byte>>, i: nat)
    requires |paths| == |cs| && i < |cs| && TotalSectors(cs[..i + 1]) * SectorSize <= U32Max
    requires TotalSectors(cs[..i + 1]) == TotalSectors(cs[..i]) + NbSectors(|cs[i]|)
    ensures TotalSectors(cs[..i]) * SectorSize <= U32Max
    ensures EncodeRecords(PackRecords(paths[..i + 1], cs[..i + 1]))
      == EncodeRecords(PackRecords(paths[..i], cs[..i]))
         + EncodeRecord(Record(TotalSectors(cs[..i]), |cs[i]|, NbSectors(|cs[i]|), Flag(paths[i])))
  {
    assert cs[..i + 1][..i] == cs[..i];
    assert paths[..i + 1][..i] == paths[..i];
    var rs := PackRecords(paths[..i], cs[..i]);
    var r := Record(TotalSectors(cs[..i]), |cs[i]|, NbSectors(|cs[i]|), Flag(paths[i]));
    assert PackRecords(paths[..i + 1], cs[..i + 1]) == rs + [r];
    EncodeRecordsSnoc(rs, r);
  }

  /** The files before `j` never occupy more sectors than all of them. */
  lemma {:induction false} TotalSectorsPrefix(cs: seq<seq<byte>>, j: nat)
    requires j <= |cs|
    ensures TotalSectors(cs[..j]) <= TotalSectors(cs)
    ensures j < |cs| ==> TotalSectors(cs[..j]) + NbSectors(|cs[j]|) <= TotalSectors(cs)
  {
    if j < |cs| {
      var front := cs[..|cs| - 1];
      if j < |cs| - 1 {
        assert front[..j] == cs[..j];
        TotalSectorsPrefix(front, j);
        assert cs[..j + 1] == front[..j + 1];
        TotalSectorsPrefix(front, j + 1);
      } else {
        assert cs[..j] == front;
      }
    } else {
      assert cs[..j] == cs;
    }
  }

  /** The largest file fits in the sectors of all of them. */
  lemma MaxLengthWithinTotal(cs: seq<seq<byte>>)
    requires TotalSectors(cs) * SectorSize <= U32Max
    ensures NbSectors(MaxLength(cs)) * SectorSize <= U32Max
  {
    if cs != [] {
      var k :| 0 <= k < |cs| && |cs[k]| == MaxLength(cs);
      TotalSectorsPrefix(cs, k);
      var n := NbSectors(MaxLength(cs));
      assert n * SectorSize <= TotalSectors(cs) * SectorSize;
    }
  }

  /** One more table path found: the gathered contents and the sizes grow by one. */
  lemma StatStep(staged: map<Path, seq<byte>>, paths: seq<Path>, files: seq<PathSize>,
                 cs: seq<seq<byte>>, i: nat)
    requires i < |paths| && paths[i] in staged && |cs| == i && |files| == i
    requires forall j :: 0 <= j < i ==> paths[j] in staged
    requires forall j :: 0 <= j < i ==> cs[j] == staged[paths[j]]
    requires forall j :: 0 <= j < i ==> files[j] == PathSize(paths[j], |cs[j]|)
    ensures forall j :: 0 <= j < i + 1 ==> paths[j] in staged
    ensures forall j :: 0 <= j < i + 1 ==> (cs + [staged[paths[i]]])[j] == staged[paths[j]]
    ensures forall j :: 0 <= j < i + 1 ==>
      (files + [PathSize(paths[i], |staged[paths[i]]|)])[j]
        == PathSize(paths[j], |(cs + [staged[paths[i]]])[j]|)
  {
  }

  /** `src/JC2Tools.cpp` lines 126-137: have `file_size` stat each table path, accumulating the total and
      the maximum size. Also counts the padded sectors for the size check. */
  method StatFiles(staged: map<Path, seq<byte>>, paths: seq<Path>)
    returns (r: Result<seq<PathSize>>, totalFilesSize: nat, maxFileSize: nat, totalSectors: nat)
    ensures Lookup(staged, paths).Err? ==> r == Err(Lookup(staged, paths).error)
    ensures Lookup(staged, paths).Ok? ==> r.Ok? && |r.value| == |paths|
    ensures Lookup(staged, paths).Ok? ==>
      forall i :: 0 <= i < |paths| ==> r.value[i] == PathSize(paths[i], |staged[paths[i]]|)
    ensures Lookup(staged, paths).Ok? ==>
      && totalFilesSize == TotalSize(Lookup(staged, paths).value)
      && maxFileSize == MaxLength(Lookup(staged, paths).value)
      && totalSectors == TotalSectors(Lookup(staged, paths).value)
  {
    var files: seq<PathSize> := [];
    totalFilesSize, maxFileSize, totalSectors := 0, 0, 0;
    ghost var cs: seq<seq<byte>> := [];
    for i := 0 to |paths|
      invariant |cs| == i
      invariant forall j :: 0 <= j < i ==> paths[j] in staged
      invariant forall j :: 0 <= j < i ==> cs[j] == staged[paths[j]]
      invariant |files| == i && forall j :: 0 <= j < i ==> files[j] == PathSize(paths[j], |cs[j]|)
      invariant totalFilesSize == TotalSize(cs) && maxFileSize == MaxLength(cs)
      invariant totalSectors == TotalSectors(cs)
    {
      var path := paths[i];
      if path !in staged {
        LookupReportsFirstMissing(staged, paths, i);
        return Err(FileSizeFailed(path)), totalFilesSize, maxFileSize, totalSectors;
      }
      var size := |staged[path]|;
      StatStep(staged, paths, files, cs, i);
      TotalsStep(cs, staged[path]);
      files := files + [PathSize(path, size)];
      totalFilesSize := totalFilesSize + size;
      if size > maxFileSize {
        maxFileSize := size;
      }
      totalSectors := totalSectors + NbSectors(size);
      cs := cs + [staged[path]];
    }
    assert cs == Lookup(staged, paths).value;
    r := Ok(files);
  }

  /** `src/JC2Tools.cpp` lines 170-180: zero the tail of the last sector (`memset`), then read the file into
      the front of the buffer. The buffer's first `fileSizeSector` bytes are the segment
      that is written to the blob. */
  method FillBuffer(buffer: array<byte>, content: seq<byte>) returns (fileSizeSector: nat)
    requires |content| + Padding(|content|) <= buffer.Length
    requires |content| + Padding(|content|) <= U32Max
    modifies buffer
    ensures fileSizeSector == NbSectors(|content|) * SectorSize
    ensures buffer[..fileSizeSector] == Segment(content)
    ensures buffer[fileSizeSector..] == old(buffer[fileSizeSector..])
  {
    var size := |content|;
    var remainder := size % SectorSize;
    fileSizeSector := size;
    if remainder != 0 {
      var padding := SectorSize - remainder;
      fileSizeSector := U32(fileSizeSector + padding);
      forall k | size <= k < size + padding {
        buffer[k] := 0;
      }
    }
    forall k | 0 <= k < size {
      buffer[k] := content[k];
    }
    PaddedIsWholeSectors(size);
    assert buffer[..fileSizeSector] == content + Zeros(Padding(size));
  }

  /** `src/JC2Tools.cpp` lines 162-184, one iteration of the repacking loop: the record for a file that
      starts at `sectorPosition`, its padded bytes, and the next file's position. */
  method WriteFile(buffer: array<byte>, path: Path, content: seq<byte>, sectorPosition: u32)
    returns (segment: seq<byte>, info: Record, nextPosition: u32)
    requires (sectorPosition + NbSectors(|content|)) * SectorSize <= U32Max
    requires |content| + Padding(|content|) <= buffer.Length
    modifies buffer
    ensures segment == Segment(content)
    ensures info == Record(sectorPosition, |content|, NbSectors(|content|), Flag(path))
    ensures nextPosition == sectorPosition + NbSectors(|content|)
    ensures buffer[..|segment|] == segment
    ensures buffer[|segment|..] == old(buffer[|segment|..])
  {
    var size := |content|;
    NbSectorsU32Agrees(size);
    info := Record(sectorPosition, size, NbSectorsU32(size), Flag(path));
    PaddedIsWholeSectors(size);
    var fileSizeSector := FillBuffer(buffer, content);
    segment := buffer[..fileSizeSector];
    nextPosition := U32(sectorPosition + fileSizeSector / SectorSize);
  }

  /** `src/JC2Tools.cpp` lines 155-156: one buffer for all files, `maxFileSize` rounded up
      to whole sectors in 32-bit arithmetic, which is exact while that fits. */
  method NewBuffer(maxFileSize: nat) returns (buffer: array<byte>)
    requires NbSectors(maxFileSize) * SectorSize <= U32Max
    ensures fresh(buffer)
    ensures buffer.Length == NbSectors(maxFileSize) * SectorSize
  {
    NbSectorsU32Agrees(maxFileSize);
    buffer := new byte[BufferSizeU32(maxFileSize)](_ => 0);
  }

  /** `src/JC2Tools.cpp` lines 144-185: write the header, then for each file its padded bytes to the blob and
      its record to the index, advancing `sectorPosition` by the sectors it used. */
  method WriteArchive(staged: map<Path, seq<byte>>, paths: seq<Path>, maxFileSize: nat,
                      ghost cs: seq<seq<byte>>)
    returns (blob: seq<byte>, loc: seq<byte>)
    requires |paths| == |cs| <= U32Max
    requires forall i :: 0 <= i < |cs| ==> paths[i] in staged && staged[paths[i]] == cs[i]
    requires maxFileSize == MaxLength(cs)
    requires !ExceedsSizeLimit(cs)
    ensures blob == PackBlob(cs)
    ensures loc == EncodeIndex(PackRecords(paths, cs))
  {
    var nbFiles := |paths|;
    var header := EncodeU32(nbFiles);
    loc := header;
    blob := [];
    var sectorPosition: u32 := 0;
    MaxLengthWithinTotal(cs);
    var buffer := NewBuffer(maxFileSize);
    for i := 0 to nbFiles
      invariant TotalSectors(cs[..i]) * SectorSize <= U32Max
      invariant sectorPosition == TotalSectors(cs[..i])
      invariant blob == PackBlob(cs[..i])
      invariant loc == header + EncodeRecords(PackRecords(paths[..i], cs[..i]))
    {
      var path := paths[i];
      var content := staged[path];
      WriteStep(paths, cs, i);
      assert |content| + Padding(|content|) <= buffer.Length by {
        NbSectorsMonotone(|content|, maxFileSize);
        PaddedIsWholeSectors(|content|);
      }
      var segment, info, nextPosition := WriteFile(buffer, path, content, sectorPosition);
      AppendAssociative(header, EncodeRecords(PackRecords(paths[..i], cs[..i])), EncodeRecord(info));
      blob := blob + segment;
      loc := loc + EncodeRecord(info);
      sectorPosition := nextPosition;
    }
    assert cs[..nbFiles] == cs && paths[..nbFiles] == paths;
  }

  method Repack(dataDirExists: bool, staged: map<Path, seq<byte>>, filesPath: nat -> seq<Path>)
    returns (r: Result<Archive>)
    requires |staged| <= U32Max
    requires forall n: nat :: |filesPath(n)| == n
    ensures r == RepackSpec(dataDirExists, staged, filesPath(|staged|))
  {
    if !dataDirExists {
      return Err(DirectoryNotFound(DataDirectory));
    }
    var nbFiles := |staged|;
    var paths := filesPath(nbFiles);
    var files, totalFilesSize, maxFileSize, totalSectors := StatFiles(staged, paths);
    if files.Err? {
      return Err(files.error);
    }
    ghost var cs := Lookup(staged, paths).value;
    if totalFilesSize > U32Max || totalSectors * SectorSize > U32Max {
      return Err(SizeLimitExceeded(Cddata000Filename));
    }
    assert forall i :: 0 <= i < |cs| ==> paths[i] in staged && staged[paths[i]] == cs[i];
    var blob, loc := WriteArchive(staged, paths, maxFileSize, cs);
    return Ok(Archive(blob, loc));
  }
}
