/** Fixed-width integers, the on-disk layout of the 1.44 MB floppy and the
    32-byte directory record used by the FAT file layer (OS/src/fat.c). */
module FatLayout {

  newtype uint8 = x: int | 0 <= x < 0x100
  newtype uint16 = x: int | 0 <= x < 0x1_0000
  newtype uint32 = x: int | 0 <= x < 0x1_0000_0000

  // Geometry: 512-byte sectors; each table copy is 9 sectors (0x1200 bytes)
  // of 16-bit entries, the root directory 14 sectors of 32-byte records.
  const SectorSize: nat := 512
  const FatBytes: nat := 512 * 9
  const FatEntries: nat := FatBytes / 2
  const Fat0Sector: nat := 1
  const Fat1Sector: nat := 10
  const RootSector: nat := 19
  const RootSectors: nat := 14
  const EntryBytes: nat := 32
  const RootEntries: nat := RootSectors * SectorSize / EntryBytes
  const DataSector: nat := 33

  // Table entry values: 0 is a free cluster, 0xFFFF ends a chain.
  const Free: uint16 := 0
  const EndOfChain: uint16 := 0xFFFF

  /** The sector that closeFile writes for cluster c (33 + c - 2). */
  function FlushSector(c: int): (s: int)
    ensures s + 2 == DataSector + c
    ensures 2 <= c ==> RootSector + RootSectors <= s
  {
    DataSector + c - 2
  }

  /** The sector that openFile reads for cluster c (33 + c, without the - 2). */
  function LoadSector(c: int): (s: int)
    ensures s == FlushSector(c) + 2
    ensures 0 <= c ==> RootSector + RootSectors <= s
  {
    DataSector + c
  }

  /** Number of 512-byte sectors that hold `size` bytes (rounded up). */
  function SectorsFor(size: nat): (n: nat)
    ensures 512 * n >= size
    ensures n > 0 ==> 512 * (n - 1) < size
  {
    (size + 512 - 1) / 512
  }

  type FileName = s: seq<uint8> | |s| == 8 witness [0, 0, 0, 0, 0, 0, 0, 0]
  type Extension = s: seq<uint8> | |s| == 3 witness [0, 0, 0]
  type OtherBytes = s: seq<uint8> | |s| == 14 witness [0, 0, 0, 0, 0, 0, 0, 0, 0, 0, 0, 0, 0, 0]

  /** A 32-byte directory record: name, extension, attribute byte, the 14
      bytes the file layer never interprets, starting cluster, file size. */
  datatype DirEntry = DirEntry(
    name: FileName,
    ext: Extension,
    attribute: uint8,
    other: OtherBytes,
    startingCluster: uint16,
    fileSize: uint32)

  function Le16(v: uint16): (b: seq<uint8>)
    ensures |b| == 2
  {
    [(v % 0x100) as uint8, (v / 0x100) as uint8]
  }

  function Le32(v: uint32): (b: seq<uint8>)
    ensures |b| == 4
  {
    Le16((v % 0x1_0000) as uint16) + Le16((v / 0x1_0000) as uint16)
  }

  function FromLe16(b: seq<uint8>): (v: uint16)
    requires |b| == 2
  {
    (b[0] as int + 0x100 * b[1] as int) as uint16
  }

  function FromLe32(b: seq<uint8>): (v: uint32)
    requires |b| == 4
  {
    (FromLe16(b[..2]) as int + 0x1_0000 * FromLe16(b[2..]) as int) as uint32
  }

  lemma Le16RoundTrip(v: uint16)
    ensures FromLe16(Le16(v)) == v
  {
  }

  lemma FromLe16RoundTrip(b: seq<uint8>)
    requires |b| == 2
    ensures Le16(FromLe16(b)) == b
  {
  }

  lemma Le32RoundTrip(v: uint32)
    ensures FromLe32(Le32(v)) == v
  {
    var lo, hi := (v % 0x1_0000) as uint16, (v / 0x1_0000) as uint16;
    assert Le32(v)[..2] == Le16(lo) && Le32(v)[2..] == Le16(hi);
    Le16RoundTrip(lo);
    Le16RoundTrip(hi);
  }

  lemma FromLe32RoundTrip(b: seq<uint8>)
    requires |b| == 4
    ensures Le32(FromLe32(b)) == b
  {
    var lo, hi := FromLe16(b[..2]), FromLe16(b[2..]);
    var v := FromLe32(b);
    assert (v % 0x1_0000) as uint16 == lo && (v / 0x1_0000) as uint16 == hi;
    FromLe16RoundTrip(b[..2]);
    FromLe16RoundTrip(b[2..]);
    assert b == b[..2] + b[2..];
  }

  /** The record's bytes as they sit in the directory region. */
  function Encode(e: DirEntry): (b: seq<uint8>)
    ensures |b| == EntryBytes
    ensures b[..8] == e.name && b[8..11] == e.ext && b[11] == e.attribute
    ensures b[12..26] == e.other
    ensures b[26..28] == Le16(e.startingCluster) && b[28..] == Le32(e.fileSize)
  {
    e.name + e.ext + [e.attribute] + e.other + Le16(e.startingCluster) + Le32(e.fileSize)
  }

  /** Reads 32 bytes of the directory region as a record. */
  function Decode(b: seq<uint8>): (e: DirEntry)
    requires |b| == EntryBytes
  {
    DirEntry(b[..8], b[8..11], b[11], b[12..26], FromLe16(b[26..28]), FromLe32(b[28..]))
  }

  lemma DecodeEncode(e: DirEntry)
    ensures Decode(Encode(e)) == e
  {
    var b := Encode(e);
    Le16RoundTrip(e.startingCluster);
    Le32RoundTrip(e.fileSize);
  }

  lemma EncodeDecode(b: seq<uint8>)
    requires |b| == EntryBytes
    ensures Encode(Decode(b)) == b
  {
    var e := Decode(b);
    FromLe16RoundTrip(b[26..28]);
    FromLe32RoundTrip(b[28..]);
    var r := Encode(e);
    assert r[..26] == b[..26];
    assert r == r[..26] + r[26..28] + r[28..];
    assert b == b[..26] + b[26..28] + b[28..];
  }
}
