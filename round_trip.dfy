/** What the two directions promise together: unpacking a repacked archive gives back
    every staged file at its table path, and the index the repacker writes is one the
    unpacker accepts. */
module RoundTrip {
  import opened Bytes
  import opened Errors
  import opened Paths
  import opened Sectors
  import opened LocIndex
  import opened Repacker
  import opened Layout
  import opened Unpacker

  /** The repacked index passes the unpacker's length check (`4 + 16 N` bytes for the
      `N` it announces) and yields the records the repacker laid out. */
  lemma RepackedIndexAccepted(staged: map<Path, seq<byte>>, paths: seq<Path>)
    requires |paths| <= U32Max && RepackSpec(true, staged, paths).Ok?
    ensures |RepackSpec(true, staged, paths).value.loc| == LocHeaderSize + RecordSize * |paths|
    ensures ParseIndex(RepackSpec(true, staged, paths).value.loc)
      == Ok(PackRecords(paths, Lookup(staged, paths).value))
  {
    ParseEncodeIndex(PackRecords(paths, Lookup(staged, paths).value));
  }

  /** Each record of a repacked archive describes bytes inside its blob, at an offset
      that fits in 32 bits, and those bytes are the file's. */
  lemma RecordsInBlob(paths: seq<Path>, cs: seq<seq<byte>>)
    requires |paths| == |cs| && TotalSectors(cs) * SectorSize <= U32Max
    ensures forall i :: 0 <= i < |cs| ==> InBlob(PackBlob(cs), PackRecords(paths, cs)[i])
    ensures forall i :: 0 <= i < |cs| ==> Slice(PackBlob(cs), PackRecords(paths, cs)[i]) == cs[i]
  {
    forall i | 0 <= i < |cs|
      ensures InBlob(PackBlob(cs), PackRecords(paths, cs)[i])
      ensures Slice(PackBlob(cs), PackRecords(paths, cs)[i]) == cs[i]
    {
      RecordInBlob(paths, cs, i);
    }
  }

  lemma RecordInBlob(paths: seq<Path>, cs: seq<seq<byte>>, i: nat)
    requires |paths| == |cs| && TotalSectors(cs) * SectorSize <= U32Max && i < |cs|
    ensures InBlob(PackBlob(cs), PackRecords(paths, cs)[i])
    ensures Slice(PackBlob(cs), PackRecords(paths, cs)[i]) == cs[i]
  {
    PackRecordsAt(paths, cs, i);
    PositionBelowLimit(cs, i);
    PackBlobAt(cs, i);
    assert PackRecords(paths, cs)[i].position * SectorSize == |PackBlob(cs[..i])|;
  }

  /** Repacking and then unpacking gives back, for every table path, exactly the staged
      file: its bytes without the padding, whatever the other files are. */
  lemma {:induction false} UnpackRepack(staged: map<Path, seq<byte>>, filesPath: nat -> seq<Path>, n: nat)
    requires n <= U32Max && forall m: nat :: |filesPath(m)| == m
    requires RepackSpec(true, staged, filesPath(n)).Ok?
    ensures UnpackSpec(true, true, RepackSpec(true, staged, filesPath(n)).value.blob,
                       RepackSpec(true, staged, filesPath(n)).value.loc, filesPath).Ok?
    ensures |UnpackSpec(true, true, RepackSpec(true, staged, filesPath(n)).value.blob,
                        RepackSpec(true, staged, filesPath(n)).value.loc, filesPath).value| == n
    ensures forall i :: 0 <= i < n ==>
      && filesPath(n)[i] in staged
      && UnpackSpec(true, true, RepackSpec(true, staged, filesPath(n)).value.blob,
                    RepackSpec(true, staged, filesPath(n)).value.loc, filesPath).value[i]
         == WrittenFile(filesPath(n)[i], staged[filesPath(n)[i]])
  {
    var paths := filesPath(n);
    var cs := Lookup(staged, paths).value;
    var rs := PackRecords(paths, cs);
    var blob := PackBlob(cs);
    RepackedIndexAccepted(staged, paths);
    assert |rs| == n;
    RecordsInBlob(paths, cs);
    UnpackedAreSlices(blob, rs, paths, MaxSize(rs));
  }

  /** The directory the unpacker leaves behind: every written file at its path, a later
      file written to the same path replacing the earlier one. */
  function Tree(files: seq<WrittenFile>): (tree: map<Path, seq<byte>>)
    ensures tree.Keys == set i | 0 <= i < |files| :: files[i].path
  {
    if files == [] then map[]
    else
      var last := |files| - 1;
      var front := Tree(files[..last]);
      assert (set i | 0 <= i < |files| :: files[i].path)
        == (set i | 0 <= i < last :: files[..last][i].path) + {files[last].path};
      front[files[last].path := files[last].content]
  }

  /** With no path written twice, every file is found in the tree with its own bytes. */
  lemma {:induction false} TreeHoldsEveryFile(files: seq<WrittenFile>)
    requires forall i, j :: 0 <= i < j < |files| ==> files[i].path != files[j].path
    ensures forall i :: 0 <= i < |files| ==> Tree(files)[files[i].path] == files[i].content
  {
    if files != [] {
      var last := |files| - 1;
      TreeHoldsEveryFile(files[..last]);
      forall i | 0 <= i < last
        ensures Tree(files)[files[i].path] == files[i].content
      {
        assert files[..last][i] == files[i];
      }
    }
  }

  /** Distinct paths make a set as large as the sequence of files they come from. */
  lemma {:induction false} DistinctPathsCount(files: seq<WrittenFile>)
    requires forall i, j :: 0 <= i < j < |files| ==> files[i].path != files[j].path
    ensures |set i | 0 <= i < |files| :: files[i].path| == |files|
  {
    if files != [] {
      var last := |files| - 1;
      var front := files[..last];
      DistinctPathsCount(front);
      assert (set i | 0 <= i < |files| :: files[i].path)
        == (set i | 0 <= i < last :: front[i].path) + {files[last].path};
      assert files[last].path !in (set i | 0 <= i < last :: front[i].path);
    }
  }

  /** A subset as large as the whole set is the whole set. */
  lemma {:induction false} SubsetOfSameSize(a: set<Path>, b: set<Path>)
    requires a <= b && |a| == |b|
    ensures a == b
  {
    if a != b {
      var x :| x in b && x !in a;
      var rest := b - {x};
      assert a <= rest;
      SubsetCount(a, rest);
    }
  }

  lemma {:induction false} SubsetCount(a: set<Path>, b: set<Path>)
    requires a <= b
    ensures |a| <= |b|
  {
    if a != {} {
      var x :| x in a;
      SubsetCount(a - {x}, b - {x});
    }
  }

  /** As many files as staged entries, at distinct staged paths and each with the staged
      bytes: then the tree they make is the staged directory itself. */
  lemma TreeIsStaged(files: seq<WrittenFile>, staged: map<Path, seq<byte>>)
    requires |files| == |staged|
    requires forall i, j :: 0 <= i < j < |files| ==> files[i].path != files[j].path
    requires forall i :: 0 <= i < |files| ==>
      files[i].path in staged && files[i].content == staged[files[i].path]
    ensures Tree(files) == staged
  {
    StagedKeys(files, staged);
    StagedValues(files, staged);
  }

  lemma StagedKeys(files: seq<WrittenFile>, staged: map<Path, seq<byte>>)
    requires |files| == |staged|
    requires forall i, j :: 0 <= i < j < |files| ==> files[i].path != files[j].path
    requires forall i :: 0 <= i < |files| ==> files[i].path in staged
    ensures Tree(files).Keys == staged.Keys
  {
    var keys := set i | 0 <= i < |files| :: files[i].path;
    forall p | p in keys
      ensures p in staged
    {
      var i :| 0 <= i < |files| && files[i].path == p;
    }
    DistinctPathsCount(files);
    SubsetOfSameSize(keys, staged.Keys);
  }

  lemma StagedValues(files: seq<WrittenFile>, staged: map<Path, seq<byte>>)
    requires forall i, j :: 0 <= i < j < |files| ==> files[i].path != files[j].path
    requires forall i :: 0 <= i < |files| ==>
      files[i].path in staged && files[i].content == staged[files[i].path]
    requires Tree(files).Keys == staged.Keys
    ensures forall p :: p in staged ==> Tree(files)[p] == staged[p]
  {
    TreeHoldsEveryFile(files);
    forall p | p in staged
      ensures Tree(files)[p] == staged[p]
    {
      var i :| 0 <= i < |files| && files[i].path == p;
    }
  }

  /** The repacker stages the `N` regular files under `data` and reads them back by the
      first `N` table paths. When those paths are distinct, unpacking the repacked
      archive restores the staged directory exactly: the same paths, the same bytes. */
  lemma UnpackRepackRestoresTree(staged: map<Path, seq<byte>>, filesPath: nat -> seq<Path>)
    requires |staged| <= U32Max && forall m: nat :: |filesPath(m)| == m
    requires forall i, j :: 0 <= i < j < |staged| ==> filesPath(|staged|)[i] != filesPath(|staged|)[j]
    requires RepackSpec(true, staged, filesPath(|staged|)).Ok?
    ensures UnpackSpec(true, true, RepackSpec(true, staged, filesPath(|staged|)).value.blob,
                       RepackSpec(true, staged, filesPath(|staged|)).value.loc, filesPath).Ok?
    ensures Tree(UnpackSpec(true, true, RepackSpec(true, staged, filesPath(|staged|)).value.blob,
                            RepackSpec(true, staged, filesPath(|staged|)).value.loc, filesPath).value)
      == staged
  {
    var n := |staged|;
    var paths := filesPath(n);
    var archive := RepackSpec(true, staged, paths).value;
    UnpackRepack(staged, filesPath, n);
    var files := UnpackSpec(true, true, archive.blob, archive.loc, filesPath).value;
    TreeIsStaged(files, staged);
  }

  /** `n` files of one zero byte each. */
  function ZeroByteFiles(n: nat): (cs: seq<seq<byte>>)
    ensures |cs| == n
    ensures forall i :: 0 <= i < n ==> cs[i] == [0]
  {
    if n == 0 then [] else ZeroByteFiles(n - 1) + [[0]]
  }

  /** `n` one-byte files take `n` bytes and `n` sectors. */
  lemma {:induction false} ZeroByteFilesTotals(n: nat)
    ensures TotalSize(ZeroByteFiles(n)) == n
    ensures TotalSectors(ZeroByteFiles(n)) == n
  {
    if n > 0 {
      assert ZeroByteFiles(n)[..n - 1] == ZeroByteFiles(n - 1);
      ZeroByteFilesTotals(n - 1);
    }
  }

  /** 2^21 one-byte files holding 0, then one holding 1. */
  const WrappedOffsetExample: seq<seq<byte>> := ZeroByteFiles(0x20_0000) + [[1]]

  /** The size test the source makes (more than 2^32 - 1 content bytes) accepts the
      example, which has only 2^21 + 1 bytes. The repacker then gives its last file
      sector 2^21, and the unpacker's 32-bit `position * sectorSize` for that sector is
      0, so it reads the first file's byte 0 instead of the byte 1 that was stored. The
      model's size test rejects the example. */
  lemma SourceGuardAdmitsWrappedOffset()
    ensures TotalSize(WrappedOffsetExample) == 0x20_0001 <= U32Max
    ensures TotalSectors(WrappedOffsetExample[..0x20_0000]) == 0x20_0000
    ensures SeekOffset(0x20_0000) == 0
    ensures WrappedOffsetExample[0x20_0000] == [1]
    ensures ReadFile(PackBlob(WrappedOffsetExample), Stream([0], false), Record(0x20_0000, 1, 1, 0))
      == Stream([0], false)
    ensures ExceedsSizeLimit(WrappedOffsetExample)
  {
    ExampleTotals();
    ExampleBlobStartsWithZero();
    assert ExceedsSizeLimit(WrappedOffsetExample);
  }

  lemma ExampleTotals()
    ensures TotalSize(WrappedOffsetExample) == 0x20_0001
    ensures TotalSectors(WrappedOffsetExample[..0x20_0000]) == 0x20_0000
    ensures TotalSectors(WrappedOffsetExample) == 0x20_0001
  {
    var front := ZeroByteFiles(0x20_0000);
    assert WrappedOffsetExample[..0x20_0000] == front;
    ZeroByteFilesTotals(0x20_0000);
    TotalsStep(front, [1]);
  }

  lemma ExampleBlobStartsWithZero()
    ensures |PackBlob(WrappedOffsetExample)| > 0 && PackBlob(WrappedOffsetExample)[0] == 0
  {
    var cs := WrappedOffsetExample;
    PackBlobPrefix(cs, 1);
    assert cs[..1] == [[0]];
    assert PackBlob(cs[..1]) == Segment([0]);
  }

  /** The source's size test also accepts a single file of 2^32 - 1 bytes, whose
      32-bit buffer size, sector count and padded length all wrap to 0 (see
      `Sectors.NbSectorsU32WrapsAtLimit`); the model's size test rejects it. */
  lemma SourceGuardAdmitsWrappedSectorCount(content: seq<byte>)
    requires |content| == U32Max
    ensures TotalSize([content]) <= U32Max
    ensures ExceedsSizeLimit([content])
  {
    assert [content][..0] == [];
    NbSectorsU32WrapsAtLimit();
  }
}
