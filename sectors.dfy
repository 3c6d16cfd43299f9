/** Sector arithmetic of the blob: every file starts on a 2048-byte boundary and its
    last sector is filled with zeros. */
module Sectors {
  import opened Bytes

  const SectorSize: nat := 2048

  /** Sectors a file of `size` bytes occupies: `(size + sectorSize - 1) >> 11`. */
  function NbSectors(size: nat): (n: nat)
    ensures n * SectorSize >= size
    ensures n * SectorSize < size + SectorSize
  {
    (size + SectorSize - 1) / SectorSize
  }

  /** Zero bytes written after a file of `size` bytes to reach the next sector boundary. */
  function Padding(size: nat): (p: nat)
    ensures (size + p) % SectorSize == 0
    ensures p < SectorSize
    ensures size % SectorSize == 0 <==> p == 0
  {
    var remainder := size % SectorSize;
    if remainder != 0 then SectorSize - remainder else 0
  }

  /** The two ways the source measures a file in sectors agree: the `nbSectors` field
      and the padded length divided by the sector size. */
  lemma PaddedIsWholeSectors(size: nat)
    ensures size + Padding(size) == NbSectors(size) * SectorSize
  {
    var n := NbSectors(size);
    var p := Padding(size);
    assert (size + p) % SectorSize == 0;
    var m := (size + p) / SectorSize;
    assert m * SectorSize == size + p;
    assert size <= m * SectorSize < size + SectorSize;
    assert size <= n * SectorSize < size + SectorSize;
  }

  lemma NbSectorsMonotone(a: nat, b: nat)
    requires a <= b
    ensures NbSectors(a) <= NbSectors(b)
  {
  }

  function Zeros(n: nat): (z: seq<byte>)
    ensures |z| == n
    ensures forall k :: 0 <= k < n ==> z[k] == 0
  {
    seq(n, _ => 0)
  }

  /** What the blob holds for one file: its bytes, then zeros up to the sector boundary. */
  function Segment(content: seq<byte>): (s: seq<byte>)
    ensures |s| == NbSectors(|content|) * SectorSize
    ensures |content| <= |s| < |content| + SectorSize
    ensures s[..|content|] == content
    ensures forall k :: |content| <= k < |s| ==> s[k] == 0
  {
    PaddedIsWholeSectors(|content|);
    content + Zeros(Padding(|content|))
  }

  /** `nbSectors` exactly as the source computes it, in 32-bit unsigned arithmetic. */
  function NbSectorsU32(size: u32): (n: u32)
    ensures size <= U32Max - (SectorSize - 1) ==> n == NbSectors(size)
  {
    U32(size + SectorSize - 1) / SectorSize
  }

  /** When the padded file fits in 32 bits, the 32-bit `nbSectors`, padded length and
      buffer size do not wrap. */
  lemma NbSectorsU32Agrees(size: u32)
    requires NbSectors(size) * SectorSize <= U32Max
    ensures size <= U32Max - (SectorSize - 1)
    ensures NbSectorsU32(size) == NbSectors(size)
    ensures FileSizeSectorU32(size) == NbSectors(size) * SectorSize
    ensures BufferSizeU32(size) == NbSectors(size) * SectorSize
  {
    PaddedIsWholeSectors(size);
    var n := NbSectors(size);
    assert n * 2048 <= 0xFFFF_FFFF;
    assert n <= 0x1F_FFFF;
  }

  /** `fileSizeSector` (the number of bytes written to the blob) exactly as the source
      computes it, in 32-bit unsigned arithmetic. */
  function FileSizeSectorU32(size: u32): (n: u32)
    ensures size + Padding(size) <= U32Max ==> n == NbSectors(size) * SectorSize
  {
    PaddedIsWholeSectors(size);
    U32(size + Padding(size))
  }

  /** The size of the repacker's one buffer, `maxFileSize` rounded up to whole sectors,
      exactly as the source computes it, in 32-bit unsigned arithmetic. */
  function BufferSizeU32(maxFileSize: u32): (n: u32)
    ensures maxFileSize + Padding(maxFileSize) <= U32Max ==> n == NbSectors(maxFileSize) * SectorSize
  {
    PaddedIsWholeSectors(maxFileSize);
    var remainder := maxFileSize % SectorSize;
    if remainder != 0 then U32(maxFileSize + SectorSize - remainder) else maxFileSize
  }

  /** For a largest file within 2047 bytes of 2^32 (and not a whole number of sectors),
      the 32-bit buffer size wraps to 0. */
  lemma BufferSizeU32Wraps(maxFileSize: u32)
    requires maxFileSize > U32Max - SectorSize + 1
    ensures BufferSizeU32(maxFileSize) == 0
    ensures NbSectors(maxFileSize) == 0x20_0000
  {
    assert maxFileSize % SectorSize == maxFileSize - (U32Max - SectorSize + 1);
  }

  /** A single file of 2^32 - 1 bytes: its padded length is 2^32, so both 32-bit
      computations wrap to 0 although the file needs 2^21 sectors, and so does the
      buffer the file is read into. */
  lemma NbSectorsU32WrapsAtLimit()
    ensures NbSectors(U32Max) == 0x20_0000
    ensures NbSectorsU32(U32Max) == 0
    ensures FileSizeSectorU32(U32Max) == 0
    ensures BufferSizeU32(U32Max) == 0
  {
    BufferSizeU32Wraps(U32Max);
  }
}
