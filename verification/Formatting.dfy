/** Formatting a device: the free map's file and an empty root directory. */
module Formatting {
  import opened Containers
  import opened Bytes
  import opened Devices
  import opened Directories
  import opened Bitmaps
  import opened Volumes
  import opened FreeMaps
  import opened FileTables

  const ROOT_ENTRIES: nat := 16

  /** Only the two system sectors are marked. */
  ghost predicate OnlySystem(used: seq<bool>) {
    |used| >= 2 && forall i :: 0 <= i < |used| ==> (used[i] <==> i < 2)
  }

  /** The words of a map of this many sectors. */
  function MapWords(sectors: nat): nat { (sectors + ELEM_BITS - 1) / ELEM_BITS }

  /** The sectors that the map's file needs. */
  function MapSectors(sectors: nat): nat { SectorsFor(4 * MapWords(sectors)) }

  /** On a fresh map, first fit takes the sectors after the system's. */
  lemma FitsAfterSystem(used: seq<bool>, n: nat, r: Option<nat>)
    requires OnlySystem(used) && 0 < n && IsFirstFit(used, 0, n, false, r)
    ensures r == if 2 + n <= |used| then Some(2) else None
  {
    if 2 + n <= |used| {
      assert AllAre(used, 2, n, false);
    }
    if r.Some? {
      assert AllAre(used, r.value, n, false);
      assert !used[r.value];
    }
  }

  lemma FitsAfterMap(used: seq<bool>, n: nat, r: Option<nat>)
    requires OnlySystem(used) && 0 < n && 2 + n <= |used|
    requires IsFirstFit(Fill(used, 2, n, true), 0, 1, false, r)
    ensures r == if 2 + n + 1 <= |used| then Some(2 + n) else None
  {
    var next := Fill(used, 2, n, true);
    if 2 + n + 1 <= |used| {
      assert AllAre(next, 2 + n, 1, false);
    }
    if r.Some? {
      assert AllAre(next, r.value, 1, false);
      assert !next[r.value];
    }
  }

  lemma NothingLive(bytes: seq<Byte>, used: seq<bool>)
    requires Sized(bytes, used)
    ensures Sound(bytes, used, {}) && forall x: nat :: Spare(bytes, {}, x)
  {
  }

  /** A directory of zeros is empty. */
  lemma ZerosAreEmpty(c: seq<Byte>)
    requires c == Zeros(ROOT_ENTRIES * SLOT_SIZE)
    ensures DirOk(c) && Entries(Rows(c)) == map[]
  {
    var rows := Rows(c);
    forall k | 0 <= k < |rows| ensures rows[k].Free? {
      assert Slot(c, k)[19] == c[SLOT_SIZE * k + 19];
    }
  }

  /** Writes the free map's inode and file. */
  method MakeMapFile(dev: Device, freeMap: Bitmap) returns (ok: bool)
    requires freeMap.Valid() && Sized(dev.bytes, freeMap.Contents()) && OnlySystem(freeMap.Contents())
    modifies dev, freeMap.bits
    ensures freeMap.Valid() && ok == (2 + MapSectors(freeMap.bitCnt) <= freeMap.bitCnt)
    ensures ok ==>
      && Sound(dev.bytes, freeMap.Contents(), {FREE_MAP_SECTOR}) && SECTOR_SIZE <= |dev.bytes|
      && NodeAt(dev.bytes, FREE_MAP_SECTOR) == Extent(2, 4 * freeMap.bits.Length)
      && freeMap.Contents() == Fill(old(freeMap.Contents()), 2, MapSectors(freeMap.bitCnt), true)
  {
    hide NodeAt, Sound, Ready, Marked;
    ghost var was, used := dev.bytes, freeMap.Contents();
    NothingLive(was, used);
    MapFits(freeMap.bitCnt);
    assert Spare(was, {}, FREE_MAP_SECTOR);
    var r := CreateInode(dev, freeMap, None, FREE_MAP_SECTOR, 4 * freeMap.bits.Length, {});
    FitsAfterSystem(used, SectorsFor(4 * freeMap.bits.Length), r);
    ok := r.Some?;
    if ok {
      FirstJoins(dev.bytes, freeMap.Contents(), FREE_MAP_SECTOR);
      var _ := WriteMap(dev, freeMap, Extent(2, 4 * freeMap.bits.Length), {FREE_MAP_SECTOR});
    }
  }

  lemma FirstJoins(bytes: seq<Byte>, used: seq<bool>, s: nat)
    requires Sound(bytes, used, {}) && Ready(bytes, used, {}, s)
    ensures Sound(bytes, used, {s})
  {
    JoinLive(bytes, used, {}, s);
    assert {} + {s} == {s};
  }

  /** A file for the map is not empty, and its length is an offset. */
  lemma MapFits(sectors: nat)
    requires 2 <= sectors < 0x1_0000_0000
    ensures 0 < MapWords(sectors) && 4 * MapWords(sectors) < 0x8000_0000 && 0 < MapSectors(sectors)
  {
  }

  /** Writes the empty root directory after the map. */
  method MakeRoot(dev: Device, freeMap: Bitmap, ghost used: seq<bool>) returns (ok: bool)
    requires freeMap.Valid() && OnlySystem(used) && |used| == freeMap.bitCnt < 0x1_0000_0000
    requires 2 + MapSectors(freeMap.bitCnt) <= freeMap.bitCnt
    requires freeMap.Contents() == Fill(used, 2, MapSectors(freeMap.bitCnt), true)
    requires Sound(dev.bytes, freeMap.Contents(), {FREE_MAP_SECTOR}) && SECTOR_SIZE <= |dev.bytes|
    requires NodeAt(dev.bytes, FREE_MAP_SECTOR) == Extent(2, 4 * freeMap.bits.Length)
    modifies dev, freeMap.bits
    ensures freeMap.Valid() && ok == (2 + MapSectors(freeMap.bitCnt) + 1 <= freeMap.bitCnt)
    ensures ok ==>
      && Sound(dev.bytes, freeMap.Contents(), {FREE_MAP_SECTOR, ROOT_DIR_SECTOR}) && RootOk(dev.bytes)
      && NodeAt(dev.bytes, FREE_MAP_SECTOR) == Extent(2, 4 * freeMap.bits.Length)
      && Directory(dev.bytes) == map[] && Saved(dev.bytes, freeMap.bits[..])
  {
    hide NodeAt, Sound, Ready, Marked, Directory, RootOk, Saved, Spare, IsFirstFit;
    ghost var bytes := dev.bytes;
    MapFits(freeMap.bitCnt);
    RootIsSpare(bytes, MapSectors(freeMap.bitCnt));
    var r := CreateInode(dev, freeMap, Some(Extent(2, 4 * freeMap.bits.Length)), ROOT_DIR_SECTOR,
      ROOT_ENTRIES * SLOT_SIZE, {FREE_MAP_SECTOR});
    FitsAfterMap(used, MapSectors(freeMap.bitCnt), r);
    ok := r.Some?;
    if ok {
      RootMade(dev.bytes, freeMap.Contents(), r.value);
    }
  }

  lemma RootIsSpare(bytes: seq<Byte>, n: nat)
    requires SECTOR_SIZE <= |bytes| && NodeAt(bytes, FREE_MAP_SECTOR).start == 2
    ensures Spare(bytes, {FREE_MAP_SECTOR}, ROOT_DIR_SECTOR)
  {
  }

  lemma RootMade(bytes: seq<Byte>, used: seq<bool>, start: nat)
    requires Sound(bytes, used, {FREE_MAP_SECTOR}) && Ready(bytes, used, {FREE_MAP_SECTOR}, ROOT_DIR_SECTOR)
    requires 2 * SECTOR_SIZE <= |bytes| && SECTOR_SIZE * start + ROOT_ENTRIES * SLOT_SIZE <= |bytes|
    requires NodeAt(bytes, ROOT_DIR_SECTOR) == Extent(start, ROOT_ENTRIES * SLOT_SIZE)
    requires DataOf(bytes, ROOT_DIR_SECTOR) == Zeros(ROOT_ENTRIES * SLOT_SIZE)
    ensures Sound(bytes, used, {FREE_MAP_SECTOR, ROOT_DIR_SECTOR}) && RootOk(bytes) && Directory(bytes) == map[]
  {
    hide NodeAt, Rows, DirOk, Entries;
    JoinLive(bytes, used, {FREE_MAP_SECTOR}, ROOT_DIR_SECTOR);
    assert {FREE_MAP_SECTOR} + {ROOT_DIR_SECTOR} == {FREE_MAP_SECTOR, ROOT_DIR_SECTOR};
    assert Marked(bytes, used, ROOT_DIR_SECTOR);
    MarkedFits(bytes, used, ROOT_DIR_SECTOR);
    ZerosAreEmpty(DataOf(bytes, ROOT_DIR_SECTOR));
  }
}
