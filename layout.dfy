/** The layout of a repacked archive: where each record points, and what the blob
    holds there. */
module Layout {
  import opened Bytes
  import opened Errors
  import opened Sectors
  import opened Paths
  import opened LocIndex
  import opened Repacker

  /** Record `i` of the table: the file starts at the sector where the files before it
      end, and its record holds its own size, its sector count and its ".bin" flag. */
  lemma {:induction false} PackRecordsAt(paths: seq<Path>, cs: seq<seq<byte>>, i: nat)
    requires |paths| == |cs| && TotalSectors(cs) * SectorSize <= U32Max && i < |cs|
    ensures PackRecords(paths, cs)[i].position == TotalSectors(cs[..i])
    ensures PackRecords(paths, cs)[i].size == |cs[i]|
    ensures PackRecords(paths, cs)[i].nbSectors == NbSectors(|cs[i]|)
    ensures PackRecords(paths, cs)[i].isABin == Flag(paths[i])
  {
    var last := |cs| - 1;
    var rs := PackRecords(paths, cs);
    var ts := TotalSectors(cs[..last]);
    assert ts * SectorSize <= U32Max by {
      ScaleMonotone(ts, TotalSectors(cs));
    }
    var front := PackRecords(paths[..last], cs[..last]);
    assert rs[..last] == front;
    if i < last {
      assert cs[..last][..i] == cs[..i];
      PackRecordsAt(paths[..last], cs[..last], i);
      assert rs[i] == front[i];
    }
  }

  /** The files before `i` end below sector 2^21, and file `i` ends inside the blob,
      whenever the whole blob fits in 32 bits. */
  lemma PositionBelowLimit(cs: seq<seq<byte>>, i: nat)
    requires TotalSectors(cs) * SectorSize <= U32Max && i < |cs|
    ensures TotalSectors(cs[..i]) < 0x20_0000
    ensures TotalSectors(cs[..i]) * SectorSize + |cs[i]| <= TotalSectors(cs) * SectorSize
  {
    var p := TotalSectors(cs[..i]);
    var n := NbSectors(|cs[i]|);
    TotalSectorsPrefix(cs, i);
    ScaleMonotone(p + n, TotalSectors(cs));
    assert (p + n) * SectorSize == p * SectorSize + n * SectorSize;
    assert p * 2048 <= 0xFFFF_FFFF;
  }

  lemma ScaleMonotone(a: nat, b: nat)
    requires a <= b
    ensures a * SectorSize <= b * SectorSize
  {
  }

  /** The first file starts at sector 0. */
  lemma FirstPositionIsZero(paths: seq<Path>, cs: seq<seq<byte>>)
    requires |paths| == |cs| && TotalSectors(cs) * SectorSize <= U32Max && cs != []
    ensures PackRecords(paths, cs)[0].position == 0
  {
    PackRecordsAt(paths, cs, 0);
  }

  /** Each file starts right after the sectors of the one before it: no gaps, no overlap. */
  lemma PositionsContiguous(paths: seq<Path>, cs: seq<seq<byte>>, i: nat)
    requires |paths| == |cs| && TotalSectors(cs) * SectorSize <= U32Max && i + 1 < |cs|
    ensures var rs := PackRecords(paths, cs);
      rs[i + 1].position == rs[i].position + rs[i].nbSectors
  {
    PackRecordsAt(paths, cs, i);
    PackRecordsAt(paths, cs, i + 1);
    PrefixStep(cs, i);
  }

  /** The sectors a record table claims, summed over its records. */
  function SectorsUsed(rs: seq<Record>): nat
  {
    if rs == [] then 0 else SectorsUsed(rs[..|rs| - 1]) + rs[|rs| - 1].nbSectors
  }

  /** The blob is exactly as long as the sectors its records claim. */
  lemma {:induction false} BlobLengthIsSectorsUsed(paths: seq<Path>, cs: seq<seq<byte>>)
    requires |paths| == |cs| && TotalSectors(cs) * SectorSize <= U32Max
    ensures |PackBlob(cs)| == SectorSize * SectorsUsed(PackRecords(paths, cs))
  {
    SectorsUsedPackRecords(paths, cs);
  }

  lemma {:induction false} SectorsUsedPackRecords(paths: seq<Path>, cs: seq<seq<byte>>)
    requires |paths| == |cs| && TotalSectors(cs) * SectorSize <= U32Max
    ensures SectorsUsed(PackRecords(paths, cs)) == TotalSectors(cs)
  {
    if cs != [] {
      var last := |cs| - 1;
      var rs := PackRecords(paths, cs);
      assert rs[..last] == PackRecords(paths[..last], cs[..last]);
      SectorsUsedPackRecords(paths[..last], cs[..last]);
    }
  }

  /** The blob written for the first `j` files is the start of the whole blob. */
  lemma {:induction false} PackBlobPrefix(cs: seq<seq<byte>>, j: nat)
    requires j <= |cs|
    ensures |PackBlob(cs[..j])| <= |PackBlob(cs)|
    ensures PackBlob(cs)[..|PackBlob(cs[..j])|] == PackBlob(cs[..j])
  {
    if j == |cs| {
      assert cs[..j] == cs;
    } else {
      var last := |cs| - 1;
      assert cs[..last][..j] == cs[..j];
      PackBlobPrefix(cs[..last], j);
      assert PackBlob(cs) == PackBlob(cs[..last]) + Segment(cs[last]);
    }
  }

  /** File `i` is stored right after the blob of the files before it: its bytes, then
      zeros up to the next sector boundary. */
  lemma PackBlobAt(cs: seq<seq<byte>>, i: nat)
    requires i < |cs|
    ensures |PackBlob(cs[..i])| + |Segment(cs[i])| <= |PackBlob(cs)|
    ensures PackBlob(cs)[|PackBlob(cs[..i])|..|PackBlob(cs[..i])| + |cs[i]|] == cs[i]
    ensures forall k :: |PackBlob(cs[..i])| + |cs[i]| <= k < |PackBlob(cs[..i])| + |Segment(cs[i])| ==>
      PackBlob(cs)[k] == 0
  {
    var blob := PackBlob(cs);
    var before := PackBlob(cs[..i]);
    var segment := Segment(cs[i]);
    PackBlobPrefix(cs, i + 1);
    PrefixStep(cs, i);
    InPrefix(blob, before, segment, |cs[i]|);
  }

  /** Where a sequence starts with `a + b`, `b` sits right after `a`. */
  lemma InPrefix<T>(s: seq<T>, a: seq<T>, b: seq<T>, j: nat)
    requires |a| + |b| <= |s| && s[..|a| + |b|] == a + b && j <= |b|
    ensures s[|a|..|a| + j] == b[..j]
    ensures forall k :: |a| <= k < |a| + |b| ==> s[k] == b[k - |a|]
  {
    assert forall k :: |a| <= k < |a| + |b| ==> s[k] == s[..|a| + |b|][k];
  }
}
