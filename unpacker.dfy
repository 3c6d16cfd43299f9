/** `JC2Tools::unpacker`: read the index, then copy each file's bytes out of the blob
    into its own file at the path the path table gives for its position. */
module Unpacker {
  import opened Bytes
  import opened Errors
  import opened Paths
  import opened Sectors
  import opened LocIndex

  /** A file the unpacker writes: its path (relative to the destination) and its bytes. */
  datatype WrittenFile = WrittenFile(path: Path, content: seq<byte>)

  /** The size of the largest record, which sizes the one buffer all reads share
      (`std::max_element` by `size`); 0 for an empty table. */
  function MaxSize(infos: seq<Record>): (m: nat)
    ensures forall i :: 0 <= i < |infos| ==> infos[i].size <= m
    ensures infos == [] ==> m == 0
    ensures infos != [] ==> exists i :: 0 <= i < |infos| && infos[i].size == m
  {
    if infos == [] then 0
    else
      var m := MaxSize(infos[..|infos| - 1]);
      if infos[|infos| - 1].size > m then infos[|infos| - 1].size else m
  }

  predicate SizesFit(infos: seq<Record>, capacity: nat)
  {
    forall i :: 0 <= i < |infos| ==> infos[i].size <= capacity
  }

  /** The blob input stream as the loop sees it: the shared buffer, and whether the
      stream has failed (a read that came up short sets `failbit`, and from then on
      every `seekg` and `read` does nothing). */
  datatype Stream = Stream(buffer: seq<byte>, failed: bool)

  function Min(a: nat, b: nat): nat
  {
    if a <= b then a else b
  }

  /** Bytes left in a blob of `blobLength` bytes after seeking to `offset`. */
  function Available(blobLength: nat, offset: nat): nat
  {
    if offset <= blobLength then blobLength - offset else 0
  }

  /** `seekg(position * sectorSize)` then `read(buffer, size)`: the bytes that exist
      are copied to the front of the buffer, the rest of the buffer is left as it was,
      and a short read fails the stream. */
  function ReadFile(blob: seq<byte>, s: Stream, info: Record): (t: Stream)
    requires info.size <= |s.buffer|
    ensures |t.buffer| == |s.buffer|
    ensures s.failed ==> t == s
    ensures t.failed <==>
      s.failed || (info.size > 0 && SeekOffset(info.position) + info.size > |blob|)
    ensures var offset := SeekOffset(info.position);
      !t.failed && offset + info.size <= |blob| ==>
        t.buffer[..info.size] == blob[offset..offset + info.size]
  {
    if s.failed then s
    else
      var offset := SeekOffset(info.position);
      var count := Min(Available(|blob|, offset), info.size);
      var start := if offset <= |blob| then offset else |blob|;
      Stream(blob[start..start + count] + s.buffer[count..], count < info.size)
  }

  /** The stream after the loop has read the files of `infos`, starting from a
      zero-filled buffer of `capacity` bytes. */
  function StreamAfter(blob: seq<byte>, infos: seq<Record>, capacity: nat): (s: Stream)
    requires SizesFit(infos, capacity)
    ensures |s.buffer| == capacity
  {
    if infos == [] then Stream(Zeros(capacity), false)
    else ReadFile(blob, StreamAfter(blob, infos[..|infos| - 1], capacity), infos[|infos| - 1])
  }

  /** The files written for `infos`: file `i` gets the first `size_i` bytes of the
      buffer after the `i`-th read. */
  function Unpacked(blob: seq<byte>, infos: seq<Record>, paths: seq<Path>, capacity: nat)
    : (files: seq<WrittenFile>)
    requires SizesFit(infos, capacity) && |infos| <= |paths|
    ensures |files| == |infos|
    ensures forall i :: 0 <= i < |infos| ==>
      files[i].path == paths[i] && |files[i].content| == infos[i].size
  {
    if infos == [] then []
    else
      var last := |infos| - 1;
      Unpacked(blob, infos[..last], paths, capacity)
        + [WrittenFile(paths[last], StreamAfter(blob, infos, capacity).buffer[..infos[last].size])]
  }

  /** The whole unpacker: both archive files must exist (the blob is checked first),
      the index must pass its length check, and then every record yields one file. */
  function UnpackSpec(blobExists: bool, locExists: bool, blob: seq<byte>, loc: seq<byte>,
                      filesPath: nat -> seq<Path>): (r: Result<seq<WrittenFile>>)
    requires forall n: nat :: |filesPath(n)| == n
    ensures !blobExists ==> r == Err(FileNotFound(Cddata000Filename))
    ensures blobExists && !locExists ==> r == Err(FileNotFound(CddataLocFilename))
    ensures blobExists && locExists && ParseIndex(loc).Err? ==> r == Err(InvalidFile(CddataLocFilename))
    ensures blobExists && locExists && ParseIndex(loc).Ok? ==>
      r.Ok? && |r.value| == |ParseIndex(loc).value|
  {
    if !blobExists then Err(FileNotFound(Cddata000Filename))
    else if !locExists then Err(FileNotFound(CddataLocFilename))
    else
      match ParseIndex(loc)
      case Err(e) => Err(e)
      case Ok(infos) => Ok(Unpacked(blob, infos, filesPath(|infos|), MaxSize(infos)))
  }

  /** A record whose bytes lie inside the blob and whose byte offset fits in 32 bits. */
  predicate InBlob(blob: seq<byte>, info: Record)
  {
    info.position < 0x20_0000 && info.position * SectorSize + info.size <= |blob|
  }

  /** The blob bytes a record describes: `size` bytes from sector `position`. */
  function Slice(blob: seq<byte>, info: Record): (s: seq<byte>)
    requires InBlob(blob, info)
    ensures |s| == info.size
  {
    var start := info.position * SectorSize;
    blob[start..start + info.size]
  }

  lemma {:induction false} StreamNeverFails(blob: seq<byte>, infos: seq<Record>, capacity: nat)
    requires SizesFit(infos, capacity)
    requires forall i :: 0 <= i < |infos| ==> InBlob(blob, infos[i])
    ensures !StreamAfter(blob, infos, capacity).failed
  {
    if infos != [] {
      StreamNeverFails(blob, infos[..|infos| - 1], capacity);
    }
  }

  /** When every record lies inside the blob, unpacked file `i` is exactly the blob bytes
      `[position_i * 2048, position_i * 2048 + size_i)`: the padding after it is never
      copied, and nothing left in the buffer by an earlier file leaks into it. */
  lemma UnpackedAreSlices(blob: seq<byte>, infos: seq<Record>, paths: seq<Path>, capacity: nat)
    requires SizesFit(infos, capacity) && |infos| <= |paths|
    requires forall i :: 0 <= i < |infos| ==> InBlob(blob, infos[i])
    ensures forall i :: 0 <= i < |infos| ==>
      Unpacked(blob, infos, paths, capacity)[i] == WrittenFile(paths[i], Slice(blob, infos[i]))
  {
    forall i | 0 <= i < |infos|
      ensures Unpacked(blob, infos, paths, capacity)[i] == WrittenFile(paths[i], Slice(blob, infos[i]))
    {
      UnpackedIsSliceAt(blob, infos, paths, capacity, i);
    }
  }

  /** The stream only fails from the first short read on, so file `i` is its blob slice as
      soon as records `0..i` lie inside the blob, whatever the later records say (a
      truncated blob still yields its leading files intact). */
  lemma UnpackedIsSliceAt(blob: seq<byte>, infos: seq<Record>, paths: seq<Path>, capacity: nat,
                          i: nat)
    requires SizesFit(infos, capacity) && |infos| <= |paths| && i < |infos|
    requires forall j :: 0 <= j <= i ==> InBlob(blob, infos[j])
    ensures Unpacked(blob, infos, paths, capacity)[i] == WrittenFile(paths[i], Slice(blob, infos[i]))
  {
    var pre := infos[..i + 1];
    UnpackedPrefix(blob, infos, paths, capacity, i + 1);
    assert forall j :: 0 <= j < |pre| ==> InBlob(blob, pre[j]);
    assert pre[..i] == infos[..i];
    LastIsSlice(blob, pre, capacity);
  }

  /** The files written for the first `k` records are the first `k` files written. */
  lemma {:induction false} UnpackedPrefix(blob: seq<byte>, infos: seq<Record>, paths: seq<Path>,
                                          capacity: nat, k: nat)
    requires SizesFit(infos, capacity) && |infos| <= |paths| && k <= |infos|
    ensures SizesFit(infos[..k], capacity)
    ensures Unpacked(blob, infos[..k], paths, capacity) == Unpacked(blob, infos, paths, capacity)[..k]
  {
    if k == |infos| {
      assert infos[..k] == infos;
    } else {
      var last := |infos| - 1;
      var front := infos[..last];
      assert front[..k] == infos[..k];
      UnpackedPrefix(blob, front, paths, capacity, k);
      assert Unpacked(blob, infos, paths, capacity)[..k] == Unpacked(blob, front, paths, capacity)[..k];
    }
  }

  /** The last read of a loop that never failed copies exactly the last record's bytes. */
  lemma LastIsSlice(blob: seq<byte>, infos: seq<Record>, capacity: nat)
    requires SizesFit(infos, capacity) && infos != []
    requires forall i :: 0 <= i < |infos| ==> InBlob(blob, infos[i])
    ensures StreamAfter(blob, infos, capacity).buffer[..infos[|infos| - 1].size]
      == Slice(blob, infos[|infos| - 1])
  {
    var last := |infos| - 1;
    StreamNeverFails(blob, infos[..last], capacity);
  }

  /** One more iteration of the unpacking loop, in terms of the specification. */
  lemma UnpackStep(blob: seq<byte>, infos: seq<Record>, paths: seq<Path>, capacity: nat, i: nat)
    requires SizesFit(infos, capacity) && |infos| <= |paths| && i < |infos|
    ensures SizesFit(infos[..i], capacity) && SizesFit(infos[..i + 1], capacity)
    ensures StreamAfter(blob, infos[..i + 1], capacity)
      == ReadFile(blob, StreamAfter(blob, infos[..i], capacity), infos[i])
    ensures Unpacked(blob, infos[..i + 1], paths, capacity)
      == Unpacked(blob, infos[..i], paths, capacity)
         + [WrittenFile(paths[i], StreamAfter(blob, infos[..i + 1], capacity).buffer[..infos[i].size])]
  {
    assert infos[..i + 1][..i] == infos[..i];
  }

  /** `cdData000.read(buffer, count)` after the seek: the first `count` buffer bytes
      are overwritten with the blob bytes from `offset`, the others are kept. */
  method ReadInto(buffer: array<byte>, blob: seq<byte>, offset: nat, count: nat)
    requires count <= buffer.Length && offset + count <= |blob|
    modifies buffer
    ensures buffer[..] == blob[offset..offset + count] + old(buffer[..])[count..]
  {
    forall k | 0 <= k < count {
      buffer[k] := blob[offset + k];
    }
  }

  /** One `seekg` and `read` of the loop (`src/JC2Tools.cpp` lines 91-92) on the shared buffer. A failed
      stream does nothing. */
  method SeekAndRead(buffer: array<byte>, failed: bool, blob: seq<byte>, info: Record)
    returns (nowFailed: bool)
    requires info.size <= buffer.Length
    modifies buffer
    ensures Stream(buffer[..], nowFailed) == ReadFile(blob, Stream(old(buffer[..]), failed), info)
  {
    nowFailed := failed;
    if !failed {
      var offset := SeekOffset(info.position);
      var count := Min(Available(|blob|, offset), info.size);
      if count > 0 {
        ReadInto(buffer, blob, offset, count);
      } else {
        assert buffer[..] == blob[|blob|..|blob|] + old(buffer[..])[0..];
      }
      nowFailed := count < info.size;
    }
  }

  /** The loop of the unpacker (`src/JC2Tools.cpp` lines 85-96): one seek, one read and one written file
      per record, all through one buffer of `maxFileSize` bytes. */
  method UnpackFiles(blob: seq<byte>, filesInfo: seq<Record>, paths: seq<Path>, maxFileSize: nat)
    returns (written: seq<WrittenFile>)
    requires SizesFit(filesInfo, maxFileSize) && |filesInfo| <= |paths|
    ensures written == Unpacked(blob, filesInfo, paths, maxFileSize)
  {
    var buffer := new byte[maxFileSize](_ => 0);
    var failed := false;
    written := [];
    assert buffer[..] == Zeros(maxFileSize);
    for i := 0 to |filesInfo|
      invariant Stream(buffer[..], failed) == StreamAfter(blob, filesInfo[..i], maxFileSize)
      invariant written == Unpacked(blob, filesInfo[..i], paths, maxFileSize)
    {
      UnpackStep(blob, filesInfo, paths, maxFileSize, i);
      failed := SeekAndRead(buffer, failed, blob, filesInfo[i]);
      written := written + [WrittenFile(paths[i], buffer[..filesInfo[i].size])];
    }
    assert filesInfo[..|filesInfo|] == filesInfo;
  }

  method Unpack(blobExists: bool, locExists: bool, blob: seq<byte>, loc: seq<byte>,
                filesPath: nat -> seq<Path>) returns (r: Result<seq<WrittenFile>>)
    requires forall n: nat :: |filesPath(n)| == n
    ensures r == UnpackSpec(blobExists, locExists, blob, loc, filesPath)
  {
    if !blobExists {
      return Err(FileNotFound(Cddata000Filename));
    }
    if !locExists {
      return Err(FileNotFound(CddataLocFilename));
    }
    var index := ParseIndex(loc);
    if index.Err? {
      return Err(index.error);
    }
    var filesInfo := index.value;
    var nbFiles := |filesInfo|;
    var maxFileSize := MaxSize(filesInfo);
    var paths := filesPath(nbFiles);
    var written := UnpackFiles(blob, filesInfo, paths, maxFileSize);
    return Ok(written);
  }
}
