/** The free map: sectors handed out first fit, the map kept in a file of its
    own, and new inodes written to sectors it hands out. */
module FreeMaps {
  import opened Containers
  import opened Numbers
  import opened Bitmaps
  import opened Bytes
  import opened Devices
  import opened Directories
  import opened Volumes

  const FREE_MAP_SECTOR: nat := 0
  const INODE_MAGIC: nat := 0x494e4f44

  lemma WordSize()
    ensures Pow2(ELEM_BITS) == 0x1_0000_0000
  {
    assert Pow2(8) == 256;
    Pow2Add(8, 8);
    Pow2Add(16, 16);
  }

  /** The bytes of a bitmap's words, in memory order. */
  function RawBytes(words: seq<nat>): (b: seq<Byte>)
    requires forall i :: 0 <= i < |words| ==> words[i] < 0x1_0000_0000
    ensures |b| == 4 * |words|
  {
    if words == [] then [] else WordBytes(words[0]) + RawBytes(words[1..])
  }

  /** The words are read back from the bytes. */
  lemma {:induction false} RawWord(words: seq<nat>, i: nat)
    requires forall i :: 0 <= i < |words| ==> words[i] < 0x1_0000_0000
    requires i < |words|
    ensures Word(RawBytes(words)[4 * i..4 * i + 4]) == words[i]
  {
    var b, rest := RawBytes(words), RawBytes(words[1..]);
    if i == 0 {
      assert b[0..4] == WordBytes(words[0]);
      WordRoundTrip(words[0]);
    } else {
      RawWord(words[1..], i - 1);
      assert b[4 * i..4 * i + 4] == rest[4 * (i - 1)..4 * (i - 1) + 4];
    }
  }

  /** The map's own file is the inode in sector 0, with room for the words. */
  ghost predicate MapFile(bytes: seq<Byte>, used: seq<bool>, live: set<nat>, e: Extent, words: nat) {
    && Sound(bytes, used, live) && FREE_MAP_SECTOR in live
    && SECTOR_SIZE <= |bytes| && e == NodeAt(bytes, FREE_MAP_SECTOR) && e.length == 4 * words
  }

  /** The map on disk is the map in memory. */
  ghost predicate Saved(bytes: seq<Byte>, words: seq<nat>) {
    && SECTOR_SIZE <= |bytes|
    && (forall i :: 0 <= i < |words| ==> words[i] < 0x1_0000_0000)
    && SECTOR_SIZE * NodeAt(bytes, FREE_MAP_SECTOR).start + NodeAt(bytes, FREE_MAP_SECTOR).length <= |bytes|
    && DataOf(bytes, FREE_MAP_SECTOR) == RawBytes(words)
  }

  /** Nothing live changed but, perhaps, the free map's file. */
  ghost predicate KeptButMap(was: seq<Byte>, now: seq<Byte>, live: set<nat>) {
    && |now| == |was|
    && (forall t {:trigger Kept(was, now, t)} :: t in live && t != FREE_MAP_SECTOR ==> Kept(was, now, t))
    && (SECTOR_SIZE <= |was| && FREE_MAP_SECTOR in live ==>
          NodeAt(now, FREE_MAP_SECTOR) == NodeAt(was, FREE_MAP_SECTOR))
  }

  lemma KeptAtFirst(bytes: seq<Byte>, used: seq<bool>, live: set<nat>)
    requires Sound(bytes, used, live)
    ensures KeptButMap(bytes, bytes, live)
  {
    forall t | t in live ensures Kept(bytes, bytes, t) {
      assert Marked(bytes, used, t);
    }
  }

  lemma KeptOnward(a: seq<Byte>, b: seq<Byte>, c: seq<Byte>, live: set<nat>)
    requires KeptButMap(a, b, live) && KeptButMap(b, c, live)
    ensures KeptButMap(a, c, live)
  {
    forall t | t in live && t != FREE_MAP_SECTOR ensures Kept(a, c, t) {
      assert Kept(a, b, t) && Kept(b, c, t);
    }
  }

  /** A sector that is spare stays so when live inodes stay. */
  lemma SpareOnward(a: seq<Byte>, b: seq<Byte>, live: set<nat>, x: nat)
    requires KeptButMap(a, b, live) && Spare(a, live, x) && SECTOR_SIZE <= |a|
    ensures Spare(b, live, x)
  {
    forall t | t in live ensures !Owns(b, t, x) {
      assert !Owns(a, t, x);
      if t != FREE_MAP_SECTOR { assert Kept(a, b, t); }
    }
  }

  /** Writes the whole map to its file. */
  method WriteMap(dev: Device, freeMap: Bitmap, e: Extent, ghost live: set<nat>) returns (ok: bool)
    requires freeMap.Valid() && MapFile(dev.bytes, freeMap.Contents(), live, e, freeMap.bits.Length)
    modifies dev
    ensures ok && KeptButMap(old(dev.bytes), dev.bytes, live)
    ensures Sound(dev.bytes, freeMap.Contents(), live) && Saved(dev.bytes, freeMap.bits[..])
  {
    WordSize();
    ghost var was, used := dev.bytes, freeMap.Contents();
    assert Marked(was, used, FREE_MAP_SECTOR);
    MarkedFits(was, used, FREE_MAP_SECTOR);
    var raw := RawBytes(freeMap.bits[..]);
    var n := WriteAt(dev, e.start, e.length, false, raw, |raw|, 0);
    ok := n == |raw|;
    MapWritten(was, dev.bytes, used, live, e, raw);
  }

  lemma MapWritten(was: seq<Byte>, now: seq<Byte>, used: seq<bool>, live: set<nat>, e: Extent, raw: seq<Byte>)
    requires Sound(was, used, live) && FREE_MAP_SECTOR in live && Marked(was, used, FREE_MAP_SECTOR)
    requires e == NodeAt(was, FREE_MAP_SECTOR) && e.length == |raw|
    requires SECTOR_SIZE * e.start + e.length <= |was|
    requires now == Written(was, SECTOR_SIZE * e.start, raw, |raw|)
    ensures KeptButMap(was, now, live) && Sound(now, used, live)
    ensures NodeAt(now, FREE_MAP_SECTOR) == e && DataOf(now, FREE_MAP_SECTOR) == raw
  {
    assert raw[..|raw|] == raw;
    WriteData(was, now, used, live, FREE_MAP_SECTOR);
    assert DataOf(now, FREE_MAP_SECTOR) == raw;
  }

  /** The words that bytes in memory order stand for. */
  method Words(raw: seq<Byte>, ghost words: seq<nat>) returns (read: seq<nat>)
    requires forall i :: 0 <= i < |words| ==> words[i] < 0x1_0000_0000
    requires raw == RawBytes(words)
    ensures read == words
  {
    hide RawBytes;
    read := [];
    while 4 * |read| < |raw|
      invariant |read| <= |words| && read == words[..|read|]
      decreases |words| - |read|
    {
      var k := |read|;
      RawWord(words, k);
      read := read + [Word(raw[4 * k..4 * k + 4])];
      assert words[..k] + [words[k]] == words[..k + 1];
    }
  }

  /** Reads the whole map from its file: what was saved comes back. */
  method ReadMap(dev: Device, freeMap: Bitmap, e: Extent, ghost words: seq<nat>) returns (ok: bool)
    requires freeMap.Valid() && Saved(dev.bytes, words) && Tidy(words, freeMap.bitCnt)
    requires e == NodeAt(dev.bytes, FREE_MAP_SECTOR) && OnDevice(dev.bytes, e.start, e.length)
    modifies freeMap.bits
    ensures ok && freeMap.Valid() && freeMap.bits[..] == words
  {
    hide NodeAt, RawBytes, Pow2;
    var size := 4 * freeMap.bits.Length;
    var buffer := new Byte[size];
    var n := ReadAt(dev, e.start, e.length, buffer, size, 0);
    ok := n == size;
    assert buffer[..] == RawBytes(words);
    var read := Words(buffer[..], words);
    freeMap.Load(read);
  }

  /** Hands out the first run of cnt unmarked sectors, if there is one, and
      saves the map when its file is open. */
  method Allocate(dev: Device, freeMap: Bitmap, mapData: Option<Extent>, cnt: nat, ghost live: set<nat>)
    returns (r: Option<nat>)
    requires freeMap.Valid() && Sound(dev.bytes, freeMap.Contents(), live)
    requires mapData.Some? ==> MapFile(dev.bytes, freeMap.Contents(), live, mapData.value, freeMap.bits.Length)
    modifies dev, freeMap.bits
    ensures freeMap.Valid() && Sound(dev.bytes, freeMap.Contents(), live)
    ensures IsFirstFit(old(freeMap.Contents()), 0, cnt, false, r)
    ensures KeptButMap(old(dev.bytes), dev.bytes, live)
    ensures r.None? ==> dev.bytes == old(dev.bytes) && unchanged(freeMap.bits)
    ensures r.Some? ==> freeMap.Contents() == Fill(old(freeMap.Contents()), r.value, cnt, true)
    ensures r.Some? && mapData.Some? ==> Saved(dev.bytes, freeMap.bits[..])
    ensures mapData.None? ==> dev.bytes == old(dev.bytes)
  {
    ghost var used := freeMap.Contents();
    KeptAtFirst(dev.bytes, used, live);
    r := freeMap.ScanAndFlip(0, cnt, false);
    MarkedMore(dev.bytes, used, live, r, cnt);
    if r.Some? && mapData.Some? {
      var ok := WriteMap(dev, freeMap, mapData.value, live);
      assert ok;
    }
  }

  lemma MarkedMore(bytes: seq<Byte>, used: seq<bool>, live: set<nat>, r: Option<nat>, cnt: nat)
    requires Sound(bytes, used, live) && IsFirstFit(used, 0, cnt, false, r)
    ensures r.Some? ==> Sound(bytes, Fill(used, r.value, cnt, true), live)
  {
    if r.Some? {
      MarkMore(bytes, used, Fill(used, r.value, cnt, true), live);
    }
  }

  /** Takes back sectors that are marked and that no live inode owns. */
  method Release(dev: Device, freeMap: Bitmap, mapData: Extent, sector: nat, cnt: nat, ghost live: set<nat>)
    requires freeMap.Valid() && MapFile(dev.bytes, freeMap.Contents(), live, mapData, freeMap.bits.Length)
    requires sector + cnt <= |freeMap.Contents()| && AllAre(freeMap.Contents(), sector, cnt, true)
    requires forall x {:trigger Spare(dev.bytes, live, x)} :: sector <= x < sector + cnt ==> Spare(dev.bytes, live, x)
    modifies dev, freeMap.bits
    ensures freeMap.Valid() && Sound(dev.bytes, freeMap.Contents(), live)
    ensures KeptButMap(old(dev.bytes), dev.bytes, live) && Saved(dev.bytes, freeMap.bits[..])
    ensures freeMap.Contents() == Fill(old(freeMap.Contents()), sector, cnt, false)
  {
    ReleaseSpare(dev.bytes, freeMap.Contents(), live, sector, cnt);
    freeMap.SetMultiple(sector, cnt, false);
    var _ := WriteMap(dev, freeMap, mapData, live);
  }

  // -------------------------------------------------------------- new inodes

  function Zeros(n: nat): (z: seq<Byte>)
    ensures |z| == n
  {
    seq(n, _ => 0)
  }

  /** The sector that stores an inode. */
  function NodeBytes(e: Extent): (b: seq<Byte>)
    requires e.start < 0x1_0000_0000 && e.length < 0x1_0000_0000
    ensures |b| == SECTOR_SIZE
  {
    WordBytes(e.start) + WordBytes(e.length) + WordBytes(INODE_MAGIC) + Zeros(SECTOR_SIZE - 12)
  }

  /** An inode written to a sector is the one read from it. */
  lemma NodeRoundTrip(was: seq<Byte>, s: nat, e: Extent)
    requires e.start < 0x1_0000_0000 && e.length < 0x1_0000_0000
    requires SECTOR_SIZE * s + SECTOR_SIZE <= |was|
    ensures NodeAt(Patch(was, SECTOR_SIZE * s, NodeBytes(e)), s) == e
  {
    var a := SECTOR_SIZE * s;
    var b := NodeBytes(e);
    var now := Patch(was, a, b);
    assert b[0..4] == WordBytes(e.start) && b[4..8] == WordBytes(e.length);
    assert now[a..a + 4] == b[0..4] && now[a + 4..a + 8] == b[4..8];
    WordRoundTrip(e.start);
    WordRoundTrip(e.length);
  }

  /** Writes zeros to n sectors. */
  method ZeroSectors(dev: Device, start: nat, n: nat)
    requires SECTOR_SIZE * (start + n) <= |dev.bytes|
    modifies dev
    ensures OnlyWithin(old(dev.bytes), dev.bytes, SECTOR_SIZE * start, SECTOR_SIZE * (start + n))
    ensures forall i :: SECTOR_SIZE * start <= i < SECTOR_SIZE * (start + n) ==> dev.bytes[i] == 0
  {
    var i := 0;
    while i < n
      invariant i <= n
      invariant OnlyWithin(old(dev.bytes), dev.bytes, SECTOR_SIZE * start, SECTOR_SIZE * (start + i))
      invariant forall j :: SECTOR_SIZE * start <= j < SECTOR_SIZE * (start + i) ==> dev.bytes[j] == 0
    {
      dev.Write(start + i, Zeros(SECTOR_SIZE));
      i := i + 1;
    }
  }

  /** An inode, not yet live, that may become so: it is marked, and no live inode
      owns its sectors. */
  ghost predicate Ready(bytes: seq<Byte>, used: seq<bool>, live: set<nat>, s: nat) {
    && Marked(bytes, used, s)
    && forall x: nat {:trigger Owns(bytes, s, x)} :: Owns(bytes, s, x) ==> Spare(bytes, live, x)
  }

  /** Nothing live changed. */
  ghost predicate KeptAll(was: seq<Byte>, now: seq<Byte>, live: set<nat>) {
    |now| == |was| && forall t {:trigger Kept(was, now, t)} :: t in live ==> Kept(was, now, t)
  }

  lemma KeptAllOnward(a: seq<Byte>, b: seq<Byte>, c: seq<Byte>, live: set<nat>)
    requires KeptAll(a, b, live) && KeptAll(b, c, live)
    ensures KeptAll(a, c, live) && KeptButMap(a, c, live)
  {
    forall t | t in live ensures Kept(a, c, t) {
      assert Kept(a, b, t) && Kept(b, c, t);
    }
    if FREE_MAP_SECTOR in live { assert Kept(a, c, FREE_MAP_SECTOR); }
  }

  lemma StillSpare(a: seq<Byte>, b: seq<Byte>, live: set<nat>, x: nat)
    requires KeptAll(a, b, live) && Spare(a, live, x)
    ensures Spare(b, live, x)
  {
    forall t | t in live ensures !Owns(b, t, x) {
      assert Kept(a, b, t) && !Owns(a, t, x);
    }
  }

  /** Sectors found unmarked are spare, also after the map was saved. */
  lemma FitIsSpare(was: seq<Byte>, now: seq<Byte>, used: seq<bool>, live: set<nat>, start: nat, n: nat)
    requires Sound(was, used, live) && KeptButMap(was, now, live) && SECTOR_SIZE <= |was|
    requires start + n <= |used| && AllAre(used, start, n, false)
    ensures forall x {:trigger Spare(now, live, x)} :: start <= x < start + n ==> Spare(now, live, x)
  {
    forall x: nat | start <= x < start + n ensures Spare(now, live, x) {
      UnmarkedIsSpare(was, used, live, x);
      SpareOnward(was, now, live, x);
    }
  }

  /** A spare range of sectors. */
  ghost predicate SpareRange(bytes: seq<Byte>, live: set<nat>, a: nat, b: nat) {
    forall x {:trigger Spare(bytes, live, x)} :: a <= x < b ==> Spare(bytes, live, x)
  }

  lemma StoreNode(was: seq<Byte>, used: seq<bool>, live: set<nat>, s: nat, e: Extent)
    requires Sound(was, used, live) && s < |used| && Spare(was, live, s)
    requires e.start < 0x1_0000_0000 && e.length < 0x1_0000_0000
    ensures
      && SECTOR_SIZE * s + SECTOR_SIZE <= |was|
      && var now := Patch(was, SECTOR_SIZE * s, NodeBytes(e));
         Sound(now, used, live) && KeptAll(was, now, live) && NodeAt(now, s) == e
  {
    var now := Patch(was, SECTOR_SIZE * s, NodeBytes(e));
    WriteSpare(was, now, used, live, s, s + 1);
    NodeRoundTrip(was, s, e);
  }

  /** The new inode may go live once its data are zeroed. */
  lemma NewInode(was: seq<Byte>, now: seq<Byte>, used: seq<bool>, live: set<nat>, s: nat)
    requires Sound(was, used, live) && s < |used| && used[s] && Spare(was, live, s) && NodeAtFits(was, used, s)
    requires
      var e := NodeAt(was, s);
      var b := e.start + SectorsFor(e.length);
      && AllAre(used, e.start, SectorsFor(e.length), true)
      && !InExtent(s, e) && SpareRange(was, live, e.start, b)
      && OnlyWithin(was, now, SECTOR_SIZE * e.start, SECTOR_SIZE * b)
      && forall i :: SECTOR_SIZE * e.start <= i < SECTOR_SIZE * b ==> now[i] == 0
    ensures Sound(now, used, live) && KeptAll(was, now, live) && Ready(now, used, live, s)
    ensures NodeAt(now, s) == NodeAt(was, s)
    ensures
      var e := NodeAt(was, s);
      SECTOR_SIZE * e.start + e.length <= |now| && DataOf(now, s) == Zeros(e.length)
  {
    var e := NodeAt(was, s);
    var b := e.start + SectorsFor(e.length);
    WriteSpare(was, now, used, live, e.start, b);
    NodeKept(was, now, SECTOR_SIZE * e.start, SECTOR_SIZE * b, s);
    LengthFits(e);
    forall x: nat | Owns(now, s, x) ensures Spare(now, live, x) {
      assert Spare(was, live, x);
      StillSpare(was, now, live, x);
    }
    assert DataOf(now, s) == Zeros(e.length);
  }

  ghost predicate NodeAtFits(bytes: seq<Byte>, used: seq<bool>, s: nat) {
    && SECTOR_SIZE * s + SECTOR_SIZE <= |bytes|
    && NodeAt(bytes, s).start + SectorsFor(NodeAt(bytes, s).length) <= |used|
  }

  lemma MapKept(was: seq<Byte>, now: seq<Byte>, words: seq<nat>, live: set<nat>)
    requires KeptAll(was, now, live) && FREE_MAP_SECTOR in live && Saved(was, words)
    ensures Saved(now, words)
  {
    assert Kept(was, now, FREE_MAP_SECTOR);
  }

  /** Writes a new inode for a file of zeros to a sector no live inode owns. It
      fails, changing nothing, just when the map has no room. */
  method CreateInode(dev: Device, freeMap: Bitmap, mapData: Option<Extent>, sector: nat, length: nat,
                     ghost live: set<nat>)
    returns (r: Option<nat>)
    requires freeMap.Valid() && Sound(dev.bytes, freeMap.Contents(), live)
    requires mapData.Some? ==> MapFile(dev.bytes, freeMap.Contents(), live, mapData.value, freeMap.bits.Length)
    requires sector < |freeMap.Contents()| && freeMap.Contents()[sector] && Spare(dev.bytes, live, sector)
    requires length < 0x8000_0000
    modifies dev, freeMap.bits
    ensures freeMap.Valid() && Sound(dev.bytes, freeMap.Contents(), live)
    ensures IsFirstFit(old(freeMap.Contents()), 0, SectorsFor(length), false, r)
    ensures KeptButMap(old(dev.bytes), dev.bytes, live)
    ensures r.None? ==> dev.bytes == old(dev.bytes) && unchanged(freeMap.bits)
    ensures r.Some? ==>
      && freeMap.Contents() == Fill(old(freeMap.Contents()), r.value, SectorsFor(length), true)
      && Ready(dev.bytes, freeMap.Contents(), live, sector)
      && SECTOR_SIZE * sector + SECTOR_SIZE <= |dev.bytes| && NodeAt(dev.bytes, sector) == Extent(r.value, length)
      && SECTOR_SIZE * r.value + length <= |dev.bytes|
      && DataOf(dev.bytes, sector) == Zeros(length)
    ensures r.Some? && mapData.Some? ==> Saved(dev.bytes, freeMap.bits[..])
  {
    hide Ready, Saved, Pow2;
    ghost var was, used := dev.bytes, freeMap.Contents();
    var sectors := SectorsFor(length);
    r := Allocate(dev, freeMap, mapData, sectors, live);
    if r.Some? {
      ghost var d1, marked, e := dev.bytes, freeMap.Contents(), Extent(r.value, length);
      SpareOnward(was, d1, live, sector);
      FitIsSpare(was, d1, used, live, r.value, sectors);
      StoreNode(d1, marked, live, sector, e);
      dev.Write(sector, NodeBytes(Extent(r.value, length)));
      ghost var d2 := dev.bytes;
      SparesOnward(d1, d2, live, sector, r.value, r.value + sectors);
      ZeroSectors(dev, r.value, sectors);
      NewInode(d2, dev.bytes, marked, live, sector);
      KeptAllOnward(d1, d2, dev.bytes, live);
      KeptOnward(was, d1, dev.bytes, live);
      if mapData.Some? {
        MapKept(d1, dev.bytes, freeMap.bits[..], live);
      }
    }
  }

  lemma SparesOnward(was: seq<Byte>, now: seq<Byte>, live: set<nat>, s: nat, a: nat, b: nat)
    requires KeptAll(was, now, live) && Spare(was, live, s) && SpareRange(was, live, a, b)
    ensures Spare(now, live, s) && SpareRange(now, live, a, b)
  {
    StillSpare(was, now, live, s);
    forall x: nat | a <= x < b ensures Spare(now, live, x) {
      assert Spare(was, live, x);
      StillSpare(was, now, live, x);
    }
  }
}
