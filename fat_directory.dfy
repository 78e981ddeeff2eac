/** The root directory of OS/src/fat.c as a sequence of 32-byte records,
    scanned linearly up to the first record whose name starts with byte 0. */
module FatDirectory {
  import opened FatLayout
  import opened Optional

  /** The scans stop at a record whose first name byte is 0. */
  predicate InUse(e: DirEntry)
  {
    e.name[0] != 0
  }

  /** stringcompare over the 8 name bytes and over the 3 extension bytes. */
  predicate Matches(e: DirEntry, name: FileName, ext: Extension)
  {
    e.name == name && e.ext == ext
  }

  /** A scan that starts at record `from` examines record `k`: `k` lies in
      the region and neither it nor any record before it (from `from` on)
      starts with byte 0. */
  ghost predicate ScannedFrom(slots: seq<DirEntry>, from: nat, k: int)
  {
    from <= k < |slots| && forall j :: from <= j <= k ==> InUse(slots[j])
  }

  /** Index of the first record from `from` on that the scan examines and
      that matches, if any. */
  function FindFrom(slots: seq<DirEntry>, name: FileName, ext: Extension, from: nat): (r: Option<nat>)
    decreases |slots| - from
    ensures r.Some? ==> from <= r.value < |slots|
  {
    if from >= |slots| || !InUse(slots[from]) then None
    else if Matches(slots[from], name, ext) then Some(from)
    else FindFrom(slots, name, ext, from + 1)
  }

  /** The scan from `from` finds the first examined record that matches, and
      finds nothing exactly when no examined record matches. */
  lemma {:induction false} FindFromSpec(slots: seq<DirEntry>, name: FileName, ext: Extension, from: nat)
    decreases |slots| - from
    ensures var r := FindFrom(slots, name, ext, from);
            r.Some? ==> ScannedFrom(slots, from, r.value) && Matches(slots[r.value], name, ext) &&
                        forall j :: from <= j < r.value ==> !Matches(slots[j], name, ext)
    ensures FindFrom(slots, name, ext, from).None? <==>
            forall k :: ScannedFrom(slots, from, k) ==> !Matches(slots[k], name, ext)
  {
    if from < |slots| && InUse(slots[from]) && !Matches(slots[from], name, ext) {
      FindFromSpec(slots, name, ext, from + 1);
      var r := FindFrom(slots, name, ext, from);
      if r.Some? {
        assert ScannedFrom(slots, from + 1, r.value);
      }
      forall k | ScannedFrom(slots, from + 1, k) ensures ScannedFrom(slots, from, k) {
      }
      forall k | ScannedFrom(slots, from, k) && k != from ensures ScannedFrom(slots, from + 1, k) {
      }
    }
  }

  /** findFile: the first record before the first 0 name byte whose name and
      extension both match, or None when no examined record matches. */
  function FindFile(name: FileName, ext: Extension, slots: seq<DirEntry>): (r: Option<DirEntry>)
    ensures r.Some? <==> exists k :: ScannedFrom(slots, 0, k) && Matches(slots[k], name, ext)
    ensures r.Some? ==> exists k :: ScannedFrom(slots, 0, k) && r.value == slots[k]
                                    && Matches(slots[k], name, ext)
                                    && forall j :: 0 <= j < k ==> !Matches(slots[j], name, ext)
  {
    FindFromSpec(slots, name, ext, 0);
    match FindFrom(slots, name, ext, 0)
    case Some(k) => Some(slots[k])
    case None => None
  }

  /** deleteFile marks a record unused by writing 0 over its first name byte. */
  function Tombstone(e: DirEntry): (r: DirEntry)
  {
    e.(name := e.name[0 := 0])
  }

  /** The directory after deleteFile: the first matching record is
      tombstoned, or nothing changes when none matches. */
  function Removed(slots: seq<DirEntry>, name: FileName, ext: Extension): (r: seq<DirEntry>)
    ensures |r| == |slots|
  {
    match FindFrom(slots, name, ext, 0)
    case Some(k) => slots[k := Tombstone(slots[k])]
    case None => slots
  }

  /** Tombstoning changes byte 0 of the record and no other byte. */
  lemma TombstoneBytes(e: DirEntry)
    ensures Encode(Tombstone(e)) == Encode(e)[0 := 0]
    ensures !InUse(Tombstone(e))
  {
    var a, b := Encode(Tombstone(e)), Encode(e)[0 := 0];
    assert a[..8] == b[..8];
    assert a == a[..8] + a[8..] && b == b[..8] + b[8..];
  }

  /** A scan result, kept only when it lies before record `k`. */
  function Before(r: Option<nat>, k: nat): Option<nat>
  {
    if r.Some? && r.value < k then r else None
  }

  /** After a tombstone at record `k`, a scan from `from` <= `k` finds what it
      found before if that lay before `k`, and nothing otherwise: every record
      from `k` on is out of reach. */
  lemma {:induction false} TombstoneHidesRest(slots: seq<DirEntry>, k: nat, from: nat, name: FileName, ext: Extension)
    requires k < |slots| && from <= k
    ensures FindFrom(slots[k := Tombstone(slots[k])], name, ext, from) == Before(FindFrom(slots, name, ext, from), k)
    decreases k - from
  {
    var s' := slots[k := Tombstone(slots[k])];
    if from == k {
      TombstoneBytes(slots[k]);
      assert !InUse(s'[from]);
    } else {
      assert s'[from] == slots[from];
      if !InUse(slots[from]) {
        assert FindFrom(s', name, ext, from) == None == FindFrom(slots, name, ext, from);
      } else if Matches(slots[from], name, ext) {
        assert FindFrom(s', name, ext, from) == Some(from) == FindFrom(slots, name, ext, from);
      } else {
        TombstoneHidesRest(slots, k, from + 1, name, ext);
      }
    }
  }

  /** deleteFile's effect on every later lookup: a name found before the
      deleted record is still found there; any other name is no longer found. */
  lemma RemovedHides(slots: seq<DirEntry>, name: FileName, ext: Extension, other: FileName, otherExt: Extension)
    requires FindFrom(slots, name, ext, 0).Some?
    ensures var k := FindFrom(slots, name, ext, 0).value;
            FindFrom(Removed(slots, name, ext), other, otherExt, 0) == Before(FindFrom(slots, other, otherExt, 0), k)
    ensures FindFile(name, ext, Removed(slots, name, ext)) == None
  {
    var k := FindFrom(slots, name, ext, 0).value;
    TombstoneHidesRest(slots, k, 0, other, otherExt);
    TombstoneHidesRest(slots, k, 0, name, ext);
  }

  /** The record createFile writes: the caller's name and extension, the new
      cluster, size 0, and every other byte cleared. */
  function CreatedEntry(name: FileName, ext: Extension, cluster: uint16): (r: DirEntry)
  {
    DirEntry(name, ext, 0, [0, 0, 0, 0, 0, 0, 0, 0, 0, 0, 0, 0, 0, 0], cluster, 0)
  }

  /** Byte view of that record: the name, the extension, 15 zero bytes, the
      cluster in little-endian order, then a zero size. */
  lemma CreatedEntryBytes(name: FileName, ext: Extension, cluster: uint16)
    ensures var b := Encode(CreatedEntry(name, ext, cluster));
            b[..8] == name && b[8..11] == ext &&
            (forall i :: 11 <= i < 26 ==> b[i] == 0) &&
            FromLe16(b[26..28]) == cluster &&
            (forall i :: 28 <= i < 32 ==> b[i] == 0)
  {
    var b := Encode(CreatedEntry(name, ext, cluster));
    Le16RoundTrip(cluster);
    assert b[12..26] == [0, 0, 0, 0, 0, 0, 0, 0, 0, 0, 0, 0, 0, 0];
    forall i | 12 <= i < 26 ensures b[i] == 0 {
      assert b[i] == b[12..26][i - 12];
    }
    assert b[28..] == Le32(0) == [0, 0, 0, 0];
    forall i | 28 <= i < 32 ensures b[i] == 0 {
      assert b[i] == b[28..][i - 28];
    }
  }
}
