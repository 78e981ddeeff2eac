/** The FAT file layer of OS/src/fat.c: the in-memory allocation table
    `fat0` (and its unused mirror `fat1`), the root directory region, and
    file handles that stage a file's bytes in a memory buffer. The floppy
    driver is represented by the log of the transfers it is asked to do. */
module Fat {
  import opened FatLayout
  import opened FatChain
  import opened FatDirectory

  /** One request to the floppy driver: a read of `length` bytes from
      `sector` into memory at byte `offset` of the destination region (a
      file's staging buffer, a table copy or the directory region), or a
      write of `data` (taken from a file's staging buffer at `offset`) to
      `sector`. */
  datatype Transfer =
    | Read(sector: int, offset: nat, length: nat)
    | Write(sector: int, offset: nat, data: seq<uint8>)

  /** The reads openFile issues for the clusters `cs`, in chain order:
      cluster k into buffer offset 512 * k, one byte long, from sector 33 + c. */
  function Loads(cs: seq<int>): (r: seq<Transfer>)
    ensures |r| == |cs|
  {
    seq(|cs|, k requires 0 <= k < |cs| => Read(LoadSector(cs[k]), 512 * k, 1))
  }

  /** The writes closeFile issues for the clusters `cs`: cluster k receives
      buffer bytes [512 * k, 512 * k + 512) in sector 33 + c - 2. */
  function Flushes(buf: seq<uint8>, cs: seq<int>): (r: seq<Transfer>)
    requires 512 * |cs| <= |buf|
    ensures |r| == |cs|
  {
    seq(|cs|, k requires 0 <= k < |cs| => Write(FlushSector(cs[k]), 512 * k, buf[512 * k..512 * k + 512]))
  }

  /** Flushing one more cluster appends its write to the log. */
  lemma FlushesAppend(before: seq<Transfer>, buf: seq<uint8>, cs: seq<int>, c: int)
    requires 512 * (|cs| + 1) <= |buf|
    ensures before + Flushes(buf, cs) + [Write(FlushSector(c), 512 * |cs|, buf[512 * |cs|..512 * |cs| + 512])] ==
            before + Flushes(buf, cs + [c])
  {
    assert Flushes(buf, cs + [c]) ==
           Flushes(buf, cs) + [Write(FlushSector(c), 512 * |cs|, buf[512 * |cs|..512 * |cs| + 512])];
  }

  lemma PrefixStep(written: seq<int>, grown: seq<int>)
    requires written <= grown && |written| < |grown|
    ensures written + [grown[|written|]] <= grown
  {
  }

  lemma PrefixOfLonger(written: seq<int>, grown: seq<int>, c: int)
    requires written <= grown
    ensures written <= grown + [c]
  {
  }

  lemma SectorsForExact(size: nat, k: nat)
    requires 512 * k < size + 512 && size <= 512 * k
    ensures SectorsFor(size) == k
  {
  }

  /** file_t: a directory record, the staging buffer and the open flag. */
  class FileHandle {
    var entry: DirEntry
    var buffer: array<uint8>
    var isOpened: uint8

    constructor (entry: DirEntry, buffer: array<uint8>)
      ensures this.entry == entry && this.buffer == buffer && isOpened == 0
    {
      this.entry := entry;
      this.buffer := buffer;
      isOpened := 0;
    }

    /** readByte: the staged byte at `index`; the disk is not touched. */
    function ReadByte(index: nat): (r: uint8)
      reads this, buffer
      requires index < buffer.Length
      ensures r == buffer[..][index]
    {
      buffer[index]
    }

    /** writeByte: refuses with -1 on a handle that is not open; otherwise
        stores the byte and counts one more byte in the file size (also when
        an existing byte is overwritten), with 32-bit wrap-around. */
    method WriteByte(byte: uint8, index: nat) returns (r: int)
      requires isOpened != 0 ==> index < buffer.Length
      modifies buffer, this`entry
      ensures isOpened == 0 ==> r == -1 && buffer[..] == old(buffer[..]) && entry == old(entry)
      ensures isOpened != 0 ==> r == 0 && buffer[..] == old(buffer[..])[index := byte]
      ensures isOpened != 0 ==> ReadByte(index) == byte
      ensures isOpened != 0 ==> entry == old(entry).(fileSize := ((old(entry.fileSize) as int + 1) % 0x1_0000_0000) as uint32)
    {
      if isOpened == 0 {
        return -1;
      }
      buffer[index] := byte;
      entry := entry.(fileSize := ((entry.fileSize as int + 1) % 0x1_0000_0000) as uint32);
      return 0;
    }
  }

  /** directory_t: the region of 32-byte records and the directory's own
      record `entry`, which createFile fills. */
  class Directory {
    var slots: array<DirEntry>
    var entry: DirEntry

    constructor (entry: DirEntry)
      ensures this.entry == entry && slots.Length == 0
    {
      this.entry := entry;
      slots := new DirEntry[0];
    }
  }

  class FileSystem {
    var fat0: array<uint16>
    var fat1: array<uint16>
    var transfers: seq<Transfer>

    /** Both table copies hold 2304 entries and are distinct arrays. */
    ghost predicate Valid()
      reads this`fat0, this`fat1
    {
      fat0.Length == FatEntries && fat1.Length == FatEntries && fat0 != fat1
    }

    /** init_fs: the two table copies are loaded from sectors 1 and 10 (9
        sectors each) and the root directory from sector 19 (14 sectors);
        the directory's own record is renamed "ROOT". The images are what the
        driver delivers. */
    constructor InitFs(fat0Image: seq<uint16>, fat1Image: seq<uint16>, rootImage: seq<DirEntry>, directory: Directory)
      requires |fat0Image| == FatEntries && |fat1Image| == FatEntries && |rootImage| == RootEntries
      modifies directory
      ensures Valid() && fresh(fat0) && fresh(fat1) && fresh(directory.slots)
      ensures fat0[..] == fat0Image && fat1[..] == fat1Image && directory.slots[..] == rootImage
      ensures transfers == [Read(Fat0Sector, 0, FatBytes), Read(Fat1Sector, 0, FatBytes),
                            Read(RootSector, 0, RootSectors * SectorSize)]
      ensures directory.entry == old(directory.entry).(name := [82, 79, 79, 84] + old(directory.entry.name)[4..])
    {
      fat0 := new uint16[FatEntries](i requires 0 <= i < FatEntries => fat0Image[i]);
      fat1 := new uint16[FatEntries](i requires 0 <= i < FatEntries => fat1Image[i]);
      directory.slots := new DirEntry[RootEntries](i requires 0 <= i < RootEntries => rootImage[i]);
      transfers := [Read(Fat0Sector, 0, FatBytes), Read(Fat1Sector, 0, FatBytes),
                    Read(RootSector, 0, RootSectors * SectorSize)];
      directory.entry := directory.entry.(name := [82, 79, 79, 84] + directory.entry.name[4..]);
    }

    /** findFreeCluster is not part of this model: it answers 0xFFFF or some
        cluster (2 or above) whose entry is free; which one is left open. */
    method FindFreeCluster() returns (c: uint16)
      requires Valid()
      ensures c == EndOfChain || (2 <= c as int < fat0.Length && fat0[c] == Free)
    {
      c :| c == EndOfChain || (2 <= c as int < fat0.Length && fat0[c] == Free);
    }

    /** The step of closeFile's loop that, at the end `tail` of the chain
        `cs`, asks for a free cluster and, when there is one, links it after
        `tail` and marks it as the new end. */
    method GrowChain(tail: uint16, ghost t0: seq<uint16>, ghost start: int, ghost chain: seq<int>, ghost cs: seq<int>)
      returns (found: bool, ghost grown: seq<int>)
      requires Valid()
      requires Grew(t0, fat0[..], start, chain, cs) && cs != [] && tail as int == cs[|cs| - 1]
      modifies fat0
      ensures !found ==> fat0[..] == old(fat0[..]) && grown == cs
      ensures found ==> Grew(t0, fat0[..], start, chain, grown) &&
                        grown == cs + [fat0[tail] as int] &&
                        fat0[..] == Extended(old(fat0[..]), tail as nat, fat0[tail] as nat)
    {
      var c := FindFreeCluster();
      if c == EndOfChain {
        return false, cs;
      }
      GrewByOne(t0, fat0[..], start, chain, cs, c as nat);
      fat0[tail] := c;
      fat0[c] := EndOfChain;
      grown := cs + [c as int];
      found := true;
    }

    /** One write of closeFile's loop: the 512 buffer bytes at `index` go
        to the sector of `current`, after the writes of the clusters
        `written`. */
    method FlushCluster(file: FileHandle, current: uint16, index: nat, ghost before: seq<Transfer>, ghost written: seq<int>)
      requires index == 512 * |written| && index + 512 <= file.buffer.Length
      requires transfers == before + Flushes(file.buffer[..], written)
      modifies this`transfers
      ensures transfers == before + Flushes(file.buffer[..], written + [current as int])
    {
      assert file.buffer[index..index + 512] == file.buffer[..][index..index + 512];
      FlushesAppend(before, file.buffer[..], written, current as int);
      transfers := transfers + [Write(FlushSector(current as int), index, file.buffer[index..index + 512])];
    }

    /** openFile: one read per cluster of the file's chain, into buffer
        offsets 0, 512, 1024, ...; then the handle is open. */
    method OpenFile(file: FileHandle, ghost chain: seq<int>) returns (r: int)
      requires Valid()
      requires IsChain(fat0[..], file.entry.startingCluster as int, chain)
      modifies this`transfers, file`isOpened
      ensures r == 0 && file.isOpened == 1
      ensures transfers == old(transfers) + Loads(chain)
    {
      var current := file.entry.startingCluster;
      var index: nat := 0;
      ghost var k := 0;
      while current != EndOfChain
        invariant 0 <= k <= |chain|
        invariant index == 512 * k
        invariant current as int == if k < |chain| then chain[k] else EndOfChain as int
        invariant transfers == old(transfers) + Loads(chain[..k])
        decreases |chain| - k
      {
        transfers := transfers + [Read(LoadSector(current as int), index, 1)];
        assert Loads(chain[..k + 1]) == Loads(chain[..k]) + [Read(LoadSector(chain[k]), 512 * k, 1)];
        index := index + 512;
        current := fat0[current];
        k := k + 1;
      }
      assert chain[..k] == chain;
      file.isOpened := 1;
      return 0;
    }

    /** closeFile: writes the staged bytes back one sector per cluster,
        growing the chain at its tail with a free cluster whenever bytes
        remain and the chain ends. `done` tells whether the loop finished
        (the handle is then closed) or stopped because no cluster was free
        (earlier writes and links stay). `grown` is the chain afterwards:
        the old chain followed by clusters that were free, with no other
        entry of the table changed. */
    method CloseFile(file: FileHandle, ghost chain: seq<int>) returns (ghost done: bool, ghost grown: seq<int>)
      requires Valid()
      requires file.entry.fileSize > 0 ==> IsChain(fat0[..], file.entry.startingCluster as int, chain) && chain != []
      requires 512 * SectorsFor(file.entry.fileSize as nat) <= file.buffer.Length
      modifies fat0, this`transfers, file`isOpened
      ensures file.entry.fileSize == 0 ==> done && fat0[..] == old(fat0[..]) && transfers == old(transfers) &&
                                           file.isOpened == 0
      ensures file.entry.fileSize > 0 ==> Grew(old(fat0[..]), fat0[..], file.entry.startingCluster as int, chain, grown)
      ensures var n := SectorsFor(file.entry.fileSize as nat);
              done ==> |grown| == (if |chain| < n then n else |chain|) && file.isOpened == 0 &&
                       transfers == old(transfers) + Flushes(file.buffer[..], grown[..n])
      ensures var n := SectorsFor(file.entry.fileSize as nat);
              !done ==> |grown| < n && file.isOpened == old(file.isOpened) &&
                        transfers == old(transfers) + Flushes(file.buffer[..], grown)
    {
      ghost var start := file.entry.startingCluster as int;
      ghost var size := file.entry.fileSize as nat;
      ghost var n := SectorsFor(size);
      ghost var buf := file.buffer[..];
      var current := file.entry.startingCluster;
      var index: nat := 0;
      var remaining: nat := file.entry.fileSize as nat;
      ghost var written: seq<int> := [];
      ghost var t0 := fat0[..];
      ghost var t := t0;
      grown := chain;
      while remaining > 0
        invariant fat0[..] == t
        invariant size > 0 ==> Grew(t0, t, start, chain, grown)
        invariant size == 0 ==> t == t0 && written == []
        invariant index + remaining == size
        invariant remaining > 0 ==> index == 512 * |written| && |written| < n && |written| < |grown| && current as int == grown[|written|]
        invariant remaining == 0 ==> |written| == n
        invariant written <= grown
        invariant |grown| == if remaining > 0 && |chain| <= |written| then |written| + 1
                             else if remaining == 0 && |chain| < |written| then |written| else |chain|
        invariant file.isOpened == old(file.isOpened)
        invariant transfers == old(transfers) + Flushes(buf, written)
        decreases remaining
      {
        var sectorSize := if remaining > 512 then 512 else remaining;
        PrefixStep(written, grown);
        FlushCluster(file, current, index, old(transfers), written);
        written := written + [current as int];
        index := index + sectorSize;
        remaining := remaining - sectorSize;
        if remaining == 0 {
          SectorsForExact(size, |written|);
        }
        EndOnlyAtLast(t, start, grown, |written| - 1);
        if remaining > 0 && fat0[current] == EndOfChain {
          var found;
          ghost var shorter := grown;
          found, grown := GrowChain(current, t0, start, chain, grown);
          if !found {
            break;
          }
          t := fat0[..];
          PrefixOfLonger(written, shorter, fat0[current] as int);
        }
        current := fat0[current];
      }
      done := remaining == 0;
      if remaining == 0 {
        assert written == grown[..n];
        file.isOpened := 0;
      } else {
        assert written == grown;
      }
    }

    /** createFile: takes a free cluster, fills the parent directory's own
        record with the file's name and extension, that cluster and size 0,
        marks the cluster as the end of a chain, and closes the file. With
        no free cluster it answers -1 and changes nothing. `cluster` is the
        cluster taken; `done` and `grown` are closeFile's. */
    method CreateFile(file: FileHandle, parent: Directory, ghost chain: seq<int>)
      returns (r: int, ghost cluster: int, ghost done: bool, ghost grown: seq<int>)
      requires Valid()
      requires file.entry.fileSize > 0 ==> IsChain(fat0[..], file.entry.startingCluster as int, chain) && chain != []
      requires 512 * SectorsFor(file.entry.fileSize as nat) <= file.buffer.Length
      modifies fat0, this`transfers, file`isOpened, parent`entry
      ensures r == -1 || r == 0
      ensures r == -1 ==> fat0[..] == old(fat0[..]) && transfers == old(transfers) &&
                          parent.entry == old(parent.entry) && file.isOpened == old(file.isOpened)
      ensures r == 0 ==> 2 <= cluster < fat0.Length && old(fat0[cluster]) == Free && fat0[cluster] == EndOfChain
      ensures r == 0 ==> IsChain(fat0[..], cluster, [cluster])
      ensures r == 0 ==> parent.entry == CreatedEntry(file.entry.name, file.entry.ext, cluster as uint16)
      ensures r == 0 && file.entry.fileSize == 0 ==> done && fat0[..] == old(fat0[..])[cluster := EndOfChain] &&
                                                     transfers == old(transfers) && file.isOpened == 0
      ensures r == 0 && file.entry.fileSize > 0 ==>
                Grew(old(fat0[..])[cluster := EndOfChain], fat0[..], file.entry.startingCluster as int, chain, grown)
      ensures var n := SectorsFor(file.entry.fileSize as nat);
              r == 0 && done ==> |grown| == (if |chain| < n then n else |chain|) && file.isOpened == 0 &&
                                 transfers == old(transfers) + Flushes(file.buffer[..], grown[..n])
      ensures var n := SectorsFor(file.entry.fileSize as nat);
              r == 0 && !done ==> |grown| < n && file.isOpened == old(file.isOpened) &&
                                  transfers == old(transfers) + Flushes(file.buffer[..], grown)
    {
      var c := FindFreeCluster();
      if c == EndOfChain {
        return -1, 0, false, chain;
      }
      cluster := c as int;
      parent.entry := CreatedEntry(file.entry.name, file.entry.ext, c);
      if file.entry.fileSize > 0 {
        FreeNotOnChain(fat0[..], file.entry.startingCluster as int, chain, cluster);
        ChainUnaffected(fat0[..], file.entry.startingCluster as int, chain, cluster, EndOfChain);
      }
      fat0[c] := EndOfChain;
      ghost var marked := fat0[..];
      done, grown := CloseFile(file, chain);
      if file.entry.fileSize > 0 {
        assert cluster !in grown by {
          forall j | 0 <= j < |grown| ensures grown[j] != cluster {
            if j < |chain| {
              assert grown[j] == chain[j];
            } else {
              assert marked[grown[j]] == Free;
            }
          }
        }
      }
      return 0, cluster, done, grown;
    }

    /** deleteFile: gives back every cluster of the file's chain, then
        tombstones the file's record in the parent directory. */
    method DeleteFile(file: FileHandle, parent: Directory, ghost chain: seq<int>)
      requires Valid()
      requires IsChain(fat0[..], file.entry.startingCluster as int, chain)
      modifies fat0, parent.slots
      ensures fat0[..] == Freed(old(fat0[..]), chain)
      ensures parent.slots[..] == Removed(old(parent.slots[..]), file.entry.name, file.entry.ext)
    {
      FreeChain(file.entry.startingCluster, chain);
      RemoveEntry(parent, file.entry.name, file.entry.ext);
    }

    /** deleteFile's first loop: walks the chain from `start`, reading each
        next link before clearing the entry. */
    method FreeChain(start: uint16, ghost chain: seq<int>)
      requires Valid()
      requires IsChain(fat0[..], start as int, chain)
      modifies fat0
      ensures fat0[..] == Freed(old(fat0[..]), chain)
    {
      ghost var t0 := fat0[..];
      ChainDistinct(t0, start as int, chain);
      var cluster := start;
      ghost var k := 0;
      while cluster != EndOfChain
        invariant 0 <= k <= |chain|
        invariant cluster as int == if k < |chain| then chain[k] else EndOfChain as int
        invariant fat0[..] == Freed(t0, chain[..k])
        decreases |chain| - k
      {
        assert chain[k] !in chain[..k];
        var next := fat0[cluster];
        FreedStep(t0, chain, k);
        fat0[cluster] := Free;
        if k < |chain| - 1 {
          assert t0[chain[k]] as int == chain[k + 1];
        }
        cluster := next;
        k := k + 1;
      }
      assert chain[..k] == chain;
    }
  }

  /** deleteFile's second loop: scans the region up to the first unused
      record and tombstones the first record that matches. */
  method RemoveEntry(parent: Directory, name: FileName, ext: Extension)
    modifies parent.slots
    ensures parent.slots[..] == Removed(old(parent.slots[..]), name, ext)
  {
    ghost var s0 := parent.slots[..];
    var i := 0;
    while i < parent.slots.Length && InUse(parent.slots[i])
      invariant 0 <= i <= parent.slots.Length
      invariant parent.slots[..] == s0
      invariant FindFrom(s0, name, ext, 0) == FindFrom(s0, name, ext, i)
      decreases parent.slots.Length - i
    {
      if Matches(parent.slots[i], name, ext) {
        parent.slots[i] := Tombstone(parent.slots[i]);
        return;
      }
      i := i + 1;
    }
  }
}
