/** The index file `CDDATA.LOC`: a `u32` record count followed by one 16-byte
    `CdDataLocFileInfo` record per archived file, in path-table order. */
module LocIndex {
  import opened Bytes
  import opened Errors
  import opened Paths
  import opened Sectors

  const LocHeaderSize: nat := 4
  const RecordSize: nat := 16

  /** `CdDataLocFileInfo`: where a file starts in the blob (in sectors), its length in
      bytes, the sectors it occupies, and whether its extension is ".bin". */
  datatype Record = Record(position: u32, size: u32, nbSectors: u32, isABin: s32)

  function EncodeRecord(r: Record): (b: seq<byte>)
    ensures |b| == RecordSize
  {
    EncodeU32(r.position) + EncodeU32(r.size) + EncodeU32(r.nbSectors) + EncodeS32(r.isABin)
  }

  function DecodeRecord(b: seq<byte>): Record
    requires |b| == RecordSize
  {
    Record(DecodeU32(b[0..4]), DecodeU32(b[4..8]), DecodeU32(b[8..12]), DecodeS32(b[12..16]))
  }

  lemma DecodeEncodeRecord(r: Record)
    ensures DecodeRecord(EncodeRecord(r)) == r
  {
    var b := EncodeRecord(r);
    assert b[0..4] == EncodeU32(r.position);
    assert b[4..8] == EncodeU32(r.size);
    assert b[8..12] == EncodeU32(r.nbSectors);
    assert b[12..16] == EncodeU32(S32ToU32(r.isABin));
    DecodeEncodeU32(r.position);
    DecodeEncodeU32(r.size);
    DecodeEncodeU32(r.nbSectors);
    DecodeEncodeU32(S32ToU32(r.isABin));
  }

  lemma EncodeDecodeRecord(b: seq<byte>)
    requires |b| == RecordSize
    ensures EncodeRecord(DecodeRecord(b)) == b
  {
    EncodeDecodeU32(b[0..4]);
    EncodeDecodeU32(b[4..8]);
    EncodeDecodeU32(b[8..12]);
    EncodeDecodeU32(b[12..16]);
    assert b == b[0..4] + b[4..8] + b[8..12] + b[12..16];
  }

  /** The record table as the repacker writes it: records back to back, no separators. */
  function EncodeRecords(rs: seq<Record>): (b: seq<byte>)
    ensures |b| == RecordSize * |rs|
  {
    if rs == [] then [] else EncodeRecords(rs[..|rs| - 1]) + EncodeRecord(rs[|rs| - 1])
  }

  lemma EncodeRecordsSnoc(rs: seq<Record>, r: Record)
    ensures EncodeRecords(rs + [r]) == EncodeRecords(rs) + EncodeRecord(r)
  {
    assert (rs + [r])[..|rs|] == rs;
  }

  /** The record table as the unpacker reads it: `n` consecutive 16-byte records. */
  function DecodeRecords(b: seq<byte>, n: nat): (rs: seq<Record>)
    requires |b| == RecordSize * n
    ensures |rs| == n
  {
    if n == 0 then []
    else
      var k := RecordSize * (n - 1);
      DecodeRecords(b[..k], n - 1) + [DecodeRecord(b[k..])]
  }

  /** Record `i` of a table is decoded from bytes `[16 i, 16 i + 16)`. */
  lemma {:induction false} DecodeRecordsAt(b: seq<byte>, n: nat, i: nat)
    requires |b| == RecordSize * n && i < n
    ensures DecodeRecords(b, n)[i] == DecodeRecord(b[RecordSize * i..RecordSize * i + RecordSize])
  {
    var k := RecordSize * (n - 1);
    if i < n - 1 {
      DecodeRecordsAt(b[..k], n - 1, i);
      assert b[..k][RecordSize * i..RecordSize * i + RecordSize]
        == b[RecordSize * i..RecordSize * i + RecordSize];
    } else {
      assert b[k..] == b[RecordSize * i..RecordSize * i + RecordSize];
    }
  }

  lemma {:induction false} DecodeEncodeRecords(rs: seq<Record>)
    ensures DecodeRecords(EncodeRecords(rs), |rs|) == rs
  {
    if rs != [] {
      var n := |rs|;
      var b := EncodeRecords(rs);
      var k := RecordSize * (n - 1);
      assert b[..k] == EncodeRecords(rs[..n - 1]);
      assert b[k..] == EncodeRecord(rs[n - 1]);
      DecodeEncodeRecords(rs[..n - 1]);
      DecodeEncodeRecord(rs[n - 1]);
      assert rs == rs[..n - 1] + [rs[n - 1]];
    }
  }

  lemma {:induction false} EncodeDecodeRecords(b: seq<byte>, n: nat)
    requires |b| == RecordSize * n
    ensures EncodeRecords(DecodeRecords(b, n)) == b
  {
    if n > 0 {
      var k := RecordSize * (n - 1);
      var front := DecodeRecords(b[..k], n - 1);
      var last := DecodeRecord(b[k..]);
      calc {
        EncodeRecords(DecodeRecords(b, n));
        EncodeRecords(front + [last]);
        { EncodeRecordsSnoc(front, last); }
        EncodeRecords(front) + EncodeRecord(last);
        { EncodeDecodeRecords(b[..k], n - 1); EncodeDecodeRecord(b[k..]); }
        b[..k] + b[k..];
        b;
      }
    }
  }

  /** The whole index file: header with the record count, then the records. */
  function EncodeIndex(rs: seq<Record>): (loc: seq<byte>)
    requires |rs| <= U32Max
    ensures |loc| == LocHeaderSize + RecordSize * |rs|
    ensures DecodeU32(loc[..LocHeaderSize]) == |rs|
  {
    DecodeEncodeU32(|rs|);
    assert (EncodeU32(|rs|) + EncodeRecords(rs))[..LocHeaderSize] == EncodeU32(|rs|);
    EncodeU32(|rs|) + EncodeRecords(rs)
  }

  /** Index parsing in the unpacker: read the count `n`, then accept the file only if
      its length is exactly `4 + 16 n`. A file shorter than its header fails the same
      check, whatever count is read, because `4 + 16 n` is never below 4. */
  function ParseIndex(loc: seq<byte>): (r: Result<seq<Record>>)
    ensures r.Ok? <==>
      |loc| >= LocHeaderSize && |loc| == LocHeaderSize + RecordSize * DecodeU32(loc[..LocHeaderSize])
    ensures r.Ok? ==> |r.value| == DecodeU32(loc[..LocHeaderSize])
    ensures r.Err? ==> r.error == InvalidFile(CddataLocFilename)
  {
    if |loc| < LocHeaderSize then Err(InvalidFile(CddataLocFilename))
    else
      var nbFiles := DecodeU32(loc[..LocHeaderSize]);
      if |loc| != LocHeaderSize + RecordSize * nbFiles then Err(InvalidFile(CddataLocFilename))
      else Ok(DecodeRecords(loc[LocHeaderSize..], nbFiles))
  }

  /** Record `i` of an accepted index is the `i`-th 16-byte block after the header. */
  lemma ParseIndexAt(loc: seq<byte>, i: nat)
    requires ParseIndex(loc).Ok? && i < |ParseIndex(loc).value|
    ensures var start := LocHeaderSize + RecordSize * i;
      ParseIndex(loc).value[i] == DecodeRecord(loc[start..start + RecordSize])
  {
    var n := DecodeU32(loc[..LocHeaderSize]);
    var body := loc[LocHeaderSize..];
    var s := RecordSize * i;
    assert s + RecordSize <= RecordSize * n == |body|;
    DecodeRecordsAt(body, n, i);
    assert body[s..s + RecordSize] == loc[LocHeaderSize + s..LocHeaderSize + s + RecordSize];
  }

  /** Every index the repacker writes is accepted and yields exactly its records. */
  lemma ParseEncodeIndex(rs: seq<Record>)
    requires |rs| <= U32Max
    ensures ParseIndex(EncodeIndex(rs)) == Ok(rs)
  {
    var loc := EncodeIndex(rs);
    assert loc[LocHeaderSize..] == EncodeRecords(rs);
    DecodeEncodeRecords(rs);
  }

  /** Every accepted index is the encoding of the records parsed from it. */
  lemma EncodeParseIndex(loc: seq<byte>)
    requires ParseIndex(loc).Ok?
    ensures EncodeIndex(ParseIndex(loc).value) == loc
  {
    var n := DecodeU32(loc[..LocHeaderSize]);
    EncodeDecodeRecords(loc[LocHeaderSize..], n);
    EncodeDecodeU32(loc[..LocHeaderSize]);
    assert loc == loc[..LocHeaderSize] + loc[LocHeaderSize..];
  }

  /** `filesInfo[i].position * sectorSize`: a `u32` product, which wraps once the
      position reaches 2^21 sectors. */
  function SeekOffset(position: u32): (offset: u32)
    ensures position < 0x20_0000 ==> offset == position * SectorSize
    ensures position == 0x20_0000 ==> offset == 0
  {
    U32(position * SectorSize)
  }
}
